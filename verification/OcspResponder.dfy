/** The OCSP responder answering from the certificate database. */
module OcspResponder {
  import opened Common
  import opened AsnTime
  import opened RevocationInfo
  import opened TextDb
  import opened SerialHex
  import opened CaState
  import opened CaDatabase
  import opened CaQueries
  import opened CaProperties

  /** One certificate identifier of a request: digest, issuer under that digest, serial. */
  datatype CertId = CertId(digest: string, issuer: string, serial: int)

  /** The CAs served, the digests known, and the identifier of a CA under a digest. */
  datatype Responder = Responder(cas: seq<string>, digestKnown: string -> bool, idOf: (string, string) -> string)

  /** Section 2.2 of RFC 6960. */
  datatype Status = Good | RevokedAt(info: RevInfo) | Unknown

  datatype Response = Malformed | InternalError | Basic(singles: seq<(CertId, Status)>)

  /** What one identifier contributes. */
  datatype Outcome = Fails | Skips | Adds(status: Status)

  predicate Served(resp: Responder, id: CertId) {
    exists ca | ca in resp.cas :: resp.idOf(id.digest, ca) == id.issuer
  }

  /**
   The revocation details put into a response. The result of unpack_revinfo() is ignored: an
   unreadable time fails the response, an unreadable reason is dropped.
   */
  function RevokedDetails(lib: Asn1, column: string): Option<RevInfo> {
    var info := Unpacked(lib, column);
    var time := Cut(column, ',').0;
    if info.Some? then info
    else if UtcTimeOk(time) then Some(RevInfo(time, NO_REASON, None, None))
    else None
  }

  function OutcomeOf(lib: Asn1, rows: seq<Row>, resp: Responder, id: CertId): Outcome {
    var i := FindSerial(rows, SerialText(id.serial));
    if !resp.digestKnown(id.digest) then Fails
    else if !Served(resp, id) || i == -1 then Adds(Unknown)
    else if CaState.Valid(rows[i]) then Adds(Good)
    else if Revoked(rows[i]) then
      var details := RevokedDetails(lib, rows[i].revocation);
      if details.None? then Fails else Adds(RevokedAt(details.value))
    else Skips
  }

  /** The single responses for the first n identifiers, or None when one fails. */
  function Singles(lib: Asn1, rows: seq<Row>, resp: Responder, ids: seq<CertId>, n: nat): Option<seq<(CertId, Status)>>
    requires n <= |ids|
  {
    if n == 0 then Some([])
    else
      var before := Singles(lib, rows, resp, ids, n - 1);
      var out := OutcomeOf(lib, rows, resp, ids[n - 1]);
      if before.None? || out == Fails then None
      else if out == Skips then before
      else Some(before.value + [(ids[n - 1], out.status)])
  }

  method FindIssuer(resp: Responder, id: CertId) returns (found: bool)
    ensures found == Served(resp, id)
    ensures found <==> exists k | 0 <= k < |resp.cas| :: resp.idOf(id.digest, resp.cas[k]) == id.issuer
  {
    found := false;
    var jj := 0;
    while jj < |resp.cas| && !found
      invariant jj <= |resp.cas|
      invariant found <==> exists k | 0 <= k < jj :: resp.idOf(id.digest, resp.cas[k]) == id.issuer
    {
      if resp.idOf(id.digest, resp.cas[jj]) == id.issuer {
        found := true;
      }
      jj := jj + 1;
    }
    if found {
      var k :| 0 <= k < jj && resp.idOf(id.digest, resp.cas[k]) == id.issuer;
      assert resp.cas[k] in resp.cas;
    }
  }

  /** The body of the loop over the identifiers, with lookup_serial(). */
  method Answer(lib: Asn1, db: CaDb, resp: Responder, id: CertId) returns (out: Outcome)
    requires db.Valid()
    ensures out == OutcomeOf(lib, db.rows, resp, id)
  {
    hide RevokedDetails;
    if !resp.digestKnown(id.digest) {
      return Fails;
    }
    var found := FindIssuer(resp, id);
    var i := db.GetBySerial(SerialText(id.serial));
    if !found || i == -1 {
      out := Adds(Unknown);
    } else if CaState.Valid(db.rows[i]) {
      out := Adds(Good);
    } else if Revoked(db.rows[i]) {
      var details := RevokedDetails(lib, db.rows[i].revocation);
      out := if details.None? then Fails else Adds(RevokedAt(details.value));
    } else {
      out := Skips;
    }
  }

  /** make_ocsp_response() up to signing. */
  method MakeResponse(lib: Asn1, db: CaDb, resp: Responder, ids: seq<CertId>) returns (r: Response)
    requires db.Valid()
    ensures r == if ids == [] then Malformed
                 else match Singles(lib, db.rows, resp, ids, |ids|)
                      case None => InternalError
                      case Some(s) => Basic(s)
    ensures r.Basic? ==> exists at :: Answers(lib, db.rows, resp, ids, r.singles, at)
    ensures r.Basic? ==> forall k | 0 <= k < |r.singles| && Foreign(resp, r.singles[k].0) :: r.singles[k].1 == Unknown
    ensures (exists id | id in ids :: !resp.digestKnown(id.digest)) ==> r == InternalError
  {
    hide OutcomeOf, Answers, Foreign;
    if |ids| == 0 {
      return Malformed;
    }
    var singles: seq<(CertId, Status)> := [];
    for n := 0 to |ids|
      invariant Singles(lib, db.rows, resp, ids, n) == Some(singles)
    {
      var out := Answer(lib, db, resp, ids[n]);
      if out == Fails {
        FailureStops(lib, db.rows, resp, ids, n + 1, |ids|);
        return InternalError;
      }
      if out.Adds? {
        singles := singles + [(ids[n], out.status)];
      }
    }
    r := Basic(singles);
    ghost var at := SinglesInOrder(lib, db.rows, resp, ids, |ids|, singles);
    ForeignIsUnknown(lib, db.rows, resp, ids, singles, at);
    UnknownDigestFails(lib, db.rows, resp, ids, |ids|);
  }

  /** No CA of the responder is the issuer. */
  predicate Foreign(resp: Responder, id: CertId) {
    forall ca | ca in resp.cas :: resp.idOf(id.digest, ca) != id.issuer
  }

  /** A certificate of a foreign CA is unknown, whatever the database holds under its serial. */
  lemma ForeignAnswer(lib: Asn1, rows: seq<Row>, resp: Responder, id: CertId)
    requires resp.digestKnown(id.digest) && Foreign(resp, id)
    ensures OutcomeOf(lib, rows, resp, id) == Adds(Unknown)
  {
  }

  /**
   The entries are those of some of the identifiers, in the order of the request, each with its
   own answer; and every other identifier is that of a row that is neither valid nor revoked.
   */
  ghost predicate Answers(lib: Asn1, rows: seq<Row>, resp: Responder, ids: seq<CertId>,
                          singles: seq<(CertId, Status)>, at: seq<nat>)
  {
    && |at| == |singles| && (forall j, k | 0 <= j < k < |at| :: at[j] < at[k])
    && (forall k | 0 <= k < |at| ::
          && at[k] < |ids| && singles[k].0 == ids[at[k]]
          && OutcomeOf(lib, rows, resp, ids[at[k]]) == Adds(singles[k].1))
    && forall i: nat | i < |ids| && i !in at :: OutcomeOf(lib, rows, resp, ids[i]) == Skips
  }

  lemma {:induction false} SinglesInOrder(lib: Asn1, rows: seq<Row>, resp: Responder, ids: seq<CertId>, n: nat,
                                          singles: seq<(CertId, Status)>) returns (at: seq<nat>)
    requires n <= |ids| && Singles(lib, rows, resp, ids, n) == Some(singles)
    ensures Answers(lib, rows, resp, ids[..n], singles, at)
    ensures n == |ids| ==> Answers(lib, rows, resp, ids, singles, at)
  {
    hide OutcomeOf;
    at := [];
    if n > 0 {
      var before := Singles(lib, rows, resp, ids, n - 1).value;
      at := SinglesInOrder(lib, rows, resp, ids, n - 1, before);
      assert forall k | 0 <= k < |at| :: ids[..n - 1][at[k]] == ids[at[k]];
      assert forall i: nat | i < n - 1 :: ids[..n - 1][i] == ids[i];
      if OutcomeOf(lib, rows, resp, ids[n - 1]) != Skips { at := at + [n - 1]; }
    }
    assert ids[..|ids|] == ids;
  }

  lemma ForeignIsUnknown(lib: Asn1, rows: seq<Row>, resp: Responder, ids: seq<CertId>,
                         singles: seq<(CertId, Status)>, at: seq<nat>)
    requires Answers(lib, rows, resp, ids, singles, at)
    ensures forall k | 0 <= k < |singles| && Foreign(resp, singles[k].0) :: singles[k].1 == Unknown
  {
    hide Foreign;
    forall k | 0 <= k < |singles| && Foreign(resp, singles[k].0) ensures singles[k].1 == Unknown {
      ForeignAnswer(lib, rows, resp, ids[at[k]]);
    }
  }

  lemma {:induction false} UnknownDigestFails(lib: Asn1, rows: seq<Row>, resp: Responder, ids: seq<CertId>, n: nat)
    requires n <= |ids|
    ensures (exists i | 0 <= i < n :: !resp.digestKnown(ids[i].digest)) ==> Singles(lib, rows, resp, ids, n).None?
    ensures n == |ids| && (exists id | id in ids :: !resp.digestKnown(id.digest)) ==>
              Singles(lib, rows, resp, ids, n).None?
  {
    if n > 0 { UnknownDigestFails(lib, rows, resp, ids, n - 1); }
  }

  /**
   The responder reads rows that were never checked: a revoked row with an unreadable time fails
   the response, and one with a readable time but an unreadable reason is reported without one.
   */
  lemma UncheckedRows(lib: Asn1, rows: seq<Row>, resp: Responder, id: CertId, i: nat)
    requires DistinctSerials(rows) && i < |rows| && SerialSyntax(rows[i].serial) && Canonical(rows[i].serial)
    requires SerialValue(rows[i].serial) == id.serial && rows[i].kind == "R"
    requires resp.digestKnown(id.digest) && Served(resp, id)
    ensures var out, time := OutcomeOf(lib, rows, resp, id), Cut(rows[i].revocation, ',').0;
            && (Unpacked(lib, rows[i].revocation).Some? ==>
                  out == Adds(RevokedAt(Unpacked(lib, rows[i].revocation).value)))
            && (Unpacked(lib, rows[i].revocation).None? ==>
                  out == if UtcTimeOk(time) then Adds(RevokedAt(RevInfo(time, NO_REASON, None, None))) else Fails)
  {
    hide Unpacked, UtcTimeOk, Cut;
    LookupByNumber(rows, id.serial, i);
  }

  lemma {:induction false} FailureStops(lib: Asn1, rows: seq<Row>, resp: Responder, ids: seq<CertId>, i: nat, n: nat)
    requires i <= n <= |ids| && Singles(lib, rows, resp, ids, i).None?
    ensures Singles(lib, rows, resp, ids, n).None?
  {
    hide OutcomeOf;
    if i < n {
      FailureStops(lib, rows, resp, ids, i, n - 1);
    }
  }

  // ----- agreement with the revocation list

  /** The row that denotes a number. */
  predicate Denotes(r: Row, n: int) {
    SerialSyntax(r.serial) && SerialValue(r.serial) == n
  }

  predicate CanonicalRows(rows: seq<Row>) {
    forall r | r in rows :: SerialSyntax(r.serial) && Canonical(r.serial)
  }

  /** A row is found under its own number exactly when its serial is written canonically. */
  lemma FoundIffCanonical(rows: seq<Row>, i: nat)
    requires DistinctSerials(rows) && i < |rows| && SerialSyntax(rows[i].serial)
    ensures FindSerial(rows, SerialText(SerialValue(rows[i].serial))) == i <==> Canonical(rows[i].serial)
  {
    FoundByNumber(rows[i].serial, SerialValue(rows[i].serial));
  }

  /** A lookup finds the canonical row with the number, if there is one. */
  lemma LookupByNumber(rows: seq<Row>, n: int, i: nat)
    requires DistinctSerials(rows) && i < |rows| && SerialSyntax(rows[i].serial)
    ensures FindSerial(rows, SerialText(n)) == i <==> Canonical(rows[i].serial) && Denotes(rows[i], n)
  {
    FoundByNumber(rows[i].serial, n);
  }

  /**
   The responder says revoked with exactly the details under which the revocation list has
   the serial, good when the row is valid, unknown when there is no row, and nothing for any
   other status.
   */
  ghost predicate AgreesWithCrl(lib: Asn1, rows: seq<Row>, out: Outcome, serial: int)
    requires LoadOk(lib, rows)
  {
    var crl := CrlOf(lib, rows, |rows|);
    && crl.Some? && out != Fails
    && (forall info :: out == Adds(RevokedAt(info)) <==> CrlEntry(serial, info) in crl.value)
    && (out == Adds(Good) <==> exists r | r in rows :: Denotes(r, serial) && CaState.Valid(r))
    && (out == Adds(Unknown) <==> forall r | r in rows :: !Denotes(r, serial))
    && (out == Skips <==> exists r | r in rows :: Denotes(r, serial) && !CaState.Valid(r) && !Revoked(r))
  }

  /** What a loaded row stands for. */
  function Standing(lib: Asn1, r: Row): (out: Outcome)
    requires RowOk(lib, r)
    ensures out != Fails && out != Adds(Unknown)
  {
    if CaState.Valid(r) then Adds(Good)
    else if Revoked(r) then Adds(RevokedAt(Unpacked(lib, r.revocation).value)) else Skips
  }

  /** A row with a canonical serial has the same number and stands for the same. */
  predicate Represented(lib: Asn1, rows: seq<Row>, r: Row)
    requires LoadOk(lib, rows) && r in rows
  {
    exists i | 0 <= i < |rows| ::
      Canonical(rows[i].serial) && Denotes(rows[i], SerialValue(r.serial)) && Standing(lib, rows[i]) == Standing(lib, r)
  }

  /** The answer is the standing of the canonical row with the number. */
  lemma AnswerIsStanding(lib: Asn1, rows: seq<Row>, resp: Responder, id: CertId)
    requires LoadOk(lib, rows) && DistinctSerials(rows) && resp.digestKnown(id.digest) && Served(resp, id)
    ensures var at := FindSerial(rows, SerialText(id.serial));
            && OutcomeOf(lib, rows, resp, id) == (if at == -1 then Adds(Unknown) else Standing(lib, rows[at]))
            && forall i | 0 <= i < |rows| :: at == i <==> Canonical(rows[i].serial) && Denotes(rows[i], id.serial)
  {
    hide Unpacked, UtcTimeOk, Cut, FindSerial, SerialText, SerialValue, Canonical, Served;
    var at := FindSerial(rows, SerialText(id.serial));
    forall i | 0 <= i < |rows|
      ensures at == i <==> Canonical(rows[i].serial) && Denotes(rows[i], id.serial)
    {
      assert RowOk(lib, rows[i]);
      LookupByNumber(rows, id.serial, i);
    }
    if at >= 0 { assert RowOk(lib, rows[at]); }
  }

  lemma ListedIsStanding(lib: Asn1, rows: seq<Row>, n: int, info: RevInfo)
    requires LoadOk(lib, rows)
    ensures CrlOf(lib, rows, |rows|).Some?
    ensures CrlEntry(n, info) in CrlOf(lib, rows, |rows|).value <==>
              exists i | 0 <= i < |rows| :: Denotes(rows[i], n) && Standing(lib, rows[i]) == Adds(RevokedAt(info))
  {
    hide Unpacked, CrlOf, SerialValue;
    CrlEntries(lib, rows, |rows|, CrlEntry(n, info));
    forall i | 0 <= i < |rows|
      ensures ListedAs(lib, rows[i], CrlEntry(n, info)) <==>
                Denotes(rows[i], n) && Standing(lib, rows[i]) == Adds(RevokedAt(info))
    {
      assert RowOk(lib, rows[i]);
    }
  }

  /** Agreement means that an answer is given exactly when some row with the number stands for it. */
  lemma AgreementIsStanding(lib: Asn1, rows: seq<Row>, out: Outcome, n: int)
    requires LoadOk(lib, rows) && out != Fails
    ensures AgreesWithCrl(lib, rows, out, n) <==>
              && (out == Adds(Unknown) <==> forall i | 0 <= i < |rows| :: !Denotes(rows[i], n))
              && (out != Adds(Unknown) ==>
                    exists i | 0 <= i < |rows| :: Denotes(rows[i], n) && Standing(lib, rows[i]) == out)
              && (forall i | 0 <= i < |rows| && Denotes(rows[i], n) :: Standing(lib, rows[i]) == out)
  {
    hide Unpacked, CrlOf, Denotes;
    forall info
      ensures CrlOf(lib, rows, |rows|).Some?
      ensures CrlEntry(n, info) in CrlOf(lib, rows, |rows|).value <==>
                exists i | 0 <= i < |rows| :: Denotes(rows[i], n) && Standing(lib, rows[i]) == Adds(RevokedAt(info))
    {
      ListedIsStanding(lib, rows, n, info);
    }
    ListedIsStanding(lib, rows, n, RevInfo("", 0, None, None));
  }

  /**
   Exactly when responder and revocation list agree on a serial: every row with its number is
   represented by a row that writes the number canonically.
   */
  lemma AgreesIffRepresented(lib: Asn1, rows: seq<Row>, resp: Responder, id: CertId)
    requires LoadOk(lib, rows) && DistinctSerials(rows) && resp.digestKnown(id.digest) && Served(resp, id)
    ensures AgreesWithCrl(lib, rows, OutcomeOf(lib, rows, resp, id), id.serial) <==>
              forall r | r in rows && Denotes(r, id.serial) :: Represented(lib, rows, r)
  {
    hide Unpacked, CrlOf, Standing, AgreesWithCrl, OutcomeOf, FindSerial, SerialText, SerialValue, Canonical;
    AnswerIsStanding(lib, rows, resp, id);
    var out, n := OutcomeOf(lib, rows, resp, id), id.serial;
    AgreementIsStanding(lib, rows, out, n);
    if forall r | r in rows && Denotes(r, n) :: Represented(lib, rows, r) {
      forall i | 0 <= i < |rows| && Denotes(rows[i], n)
        ensures out != Adds(Unknown) && Standing(lib, rows[i]) == out
      {
        assert rows[i] in rows && Represented(lib, rows, rows[i]);
      }
    }
  }

  /** So they agree wherever all serials are canonical. */
  lemma OcspAgreesWithCrl(lib: Asn1, rows: seq<Row>, resp: Responder, id: CertId)
    requires LoadOk(lib, rows) && DistinctSerials(rows) && CanonicalRows(rows)
    requires resp.digestKnown(id.digest) && Served(resp, id)
    ensures AgreesWithCrl(lib, rows, OutcomeOf(lib, rows, resp, id), id.serial)
  {
    hide Standing, AgreesWithCrl, OutcomeOf, SerialValue, Canonical;
    AgreesIffRepresented(lib, rows, resp, id);
    forall r | r in rows && Denotes(r, id.serial) ensures Represented(lib, rows, r) {
      var i :| 0 <= i < |rows| && rows[i] == r;
      assert Canonical(rows[i].serial) && Standing(lib, rows[i]) == Standing(lib, r);
    }
  }

  lemma StepCanonical(lib: Asn1, db: Db, e: Event)
    requires Inv(db) && ValidEvent(e) && CanonicalRows(db.rows)
    ensures CanonicalRows(Step(lib, db, e).0.rows)
  {
    StepInv(lib, db, e);
    StepAdds(lib, db, e);
    var last := Step(lib, db, e).0.rows;
    forall i | 0 <= i < |last| ensures SerialSyntax(last[i].serial) && Canonical(last[i].serial) {
      if i < |db.rows| {
        assert RowEvolves(db.rows[i], last[i]) && db.rows[i] in db.rows;
      } else {
        SerialTextRoundTrip(e.cert.serial);
      }
    }
  }

  lemma {:induction false} RunCanonical(lib: Asn1, db: Db, es: seq<Event>)
    requires Inv(db) && CanonicalRows(db.rows) && forall e | e in es :: ValidEvent(e)
    ensures CanonicalRows(Run(lib, db, es).rows)
    decreases |es|
  {
    if es != [] {
      StepInv(lib, db, es[0]);
      StepCanonical(lib, db, es[0]);
      RunCanonical(lib, Step(lib, db, es[0]).0, es[1..]);
    }
  }

  /**
   Over every run: from a loaded database with canonical serials, and as long as nothing
   unloadable was recorded, responder and revocation list agree on every serial.
   */
  lemma ReachableOcspAgrees(lib: Asn1, rows: seq<Row>, unique: bool, es: seq<Event>, resp: Responder, id: CertId)
    requires Indexed(rows, unique).Some? && LoadOk(lib, rows) && CanonicalRows(rows)
    requires (forall e | e in es :: ValidEvent(e)) && CleanRun(lib, Indexed(rows, unique).value, es)
    requires resp.digestKnown(id.digest) && Served(resp, id)
    ensures var last := Run(lib, Indexed(rows, unique).value, es).rows;
            LoadOk(lib, last) && AgreesWithCrl(lib, last, OutcomeOf(lib, last, resp, id), id.serial)
  {
    var db := Indexed(rows, unique).value;
    IndexedInv(rows, unique);
    RunSafety(lib, rows, unique, es);
    RunLoads(lib, db, es);
    RunCanonical(lib, db, es);
    OcspAgreesWithCrl(lib, Run(lib, db, es).rows, resp, id);
  }

  /** A loadable revoked row whose serial is in lower case is listed but unknown to the responder. */
  lemma LowerCaseDisagrees(lib: Asn1, r: Row, resp: Responder, id: CertId)
    requires RowOk(lib, r) && Revoked(r) && r.serial == "0a" && id.serial == 10
    requires resp.digestKnown(id.digest) && Served(resp, id)
    ensures LoadOk(lib, [r]) && DistinctSerials([r])
    ensures OutcomeOf(lib, [r], resp, id) == Adds(Unknown)
    ensures CrlOf(lib, [r], 1) == Some([CrlEntry(10, Unpacked(lib, r.revocation).value)])
  {
    hide Unpacked;
    assert !IsUpperHex(Unsigned(r.serial)[1]);
    assert r.serial[..1] == "0" && r.serial[..1][..0] == "";
    assert Magnitude("0") == 0 && SerialValue(r.serial) == 10;
    FoundByNumber(r.serial, 10);
    assert FindSerial([r], SerialText(10)) == -1;
    assert CrlOf(lib, [r], 0) == Some([]);
    assert [] + [CrlEntry(10, Unpacked(lib, r.revocation).value)] == [CrlEntry(10, Unpacked(lib, r.revocation).value)];
  }
}
