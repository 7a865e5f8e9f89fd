/** Certifying the requests of one run of ca: serial allocation across the batch. */
module CaBatch {
  import opened Common
  import opened RevocationInfo
  import opened TextDb
  import opened SerialHex
  import opened CaState
  import opened CaDatabase
  import opened CaProperties

  /** A request that fails before the clash checks, or one that reaches them. */
  datatype Request =
    | Refused(code: int)
    | Request(subject: string, expiry: string, answer: Answer)

  /** -spkac, -ss_cert, -in and the remaining arguments, in the order they are processed. */
  datatype Batch = Batch(
    spkac: Option<Request>, selfSigned: Option<Request>, infile: Option<Request>, args: seq<Request>)

  function One(r: Option<Request>): seq<Request> {
    if r.None? then [] else [r.value]
  }

  function Requests(b: Batch): seq<Request> {
    One(b.spkac) + One(b.selfSigned) + One(b.infile) + b.args
  }

  predicate ValidRequest(r: Request) {
    r.Refused? ==> r.code in {-1, 0}
  }

  predicate ValidBatch(b: Batch) {
    forall r | r in Requests(b) :: ValidRequest(r)
  }

  /** What a batch has done so far; failed means the run was abandoned. */
  datatype Progress = Progress(db: Db, serial: int, certs: seq<Cert>, total: nat, done: nat, failed: bool)

  function CertOf(r: Request, serial: int): Cert
    requires r.Request?
  {
    Cert(r.subject, serial, r.expiry)
  }

  /** The result of certify() and its variants. */
  function CertifyCode(db: Db, serial: int, r: Request): (Db, int) {
    if r.Refused? then (db, r.code) else IssueStep(db, CertOf(r, serial), r.answer)
  }

  /** One request: only a certified one takes a serial. */
  function Certify(p: Progress, r: Request): Progress {
    if p.failed then p
    else
      var (db, j) := CertifyCode(p.db, p.serial, r);
      if j < 0 then p.(db := db, total := p.total + 1, failed := true)
      else if j == 0 || r.Refused? then p.(db := db, total := p.total + 1)
      else Progress(db, p.serial + 1, p.certs + [CertOf(r, p.serial)], p.total + 1, p.done + 1, false)
  }

  function CertifyAll(p: Progress, rs: seq<Request>): Progress {
    if rs == [] then p else Certify(CertifyAll(p, rs[..|rs| - 1]), rs[|rs| - 1])
  }

  function Start(db: Db, serial: int): Progress {
    Progress(db, serial, [], 0, 0, false)
  }

  // ----- the code

  class Run {
    const db: CaDb
    var serial: int
    var certs: seq<Cert>
    var total: nat
    var done: nat
    var failed: bool

    ghost function Abs(): Progress
      reads this, db
    {
      Progress(db.Abs(), serial, certs, total, done, failed)
    }

    constructor (db: CaDb, serial: int)
      requires db.Valid()
      ensures this.db == db && Abs() == Start(db.Abs(), serial)
    {
      this.db, this.serial, certs, total, done, failed := db, serial, [], 0, 0, false;
    }

    /** One call of certify() with the bookkeeping that follows it. */
    method Process(r: Request)
      requires db.Valid() && ValidRequest(r)
      modifies this, db
      ensures db.Valid() && Abs() == Certify(old(Abs()), r)
    {
      hide FindSerial, NameTaken, SerialText, Inv, IsSerialIndex, IsNameIndex;
      if failed {
        return;
      }
      total := total + 1;
      var j: int;
      if r.Refused? {
        j := r.code;
      } else {
        j := db.Issue(CertOf(r, serial), r.answer);
      }
      if j < 0 {
        failed := true;
        return;
      }
      if j > 0 {
        done := done + 1;
        certs := certs + [CertOf(r, serial)];
        serial := serial + 1;
      }
    }

    /** A request given by an option, if it was given. */
    method ProcessOption(r: Option<Request>)
      requires db.Valid() && forall x | x in One(r) :: ValidRequest(x)
      modifies this, db
      ensures db.Valid() && Abs() == CertifyAll(old(Abs()), One(r))
    {
      hide Certify, Inv, IsSerialIndex, IsNameIndex;
      if r.Some? {
        assert r.value in One(r) && One(r)[..0] == [];
        Process(r.value);
      }
    }

    /** The certification part of ca_main(). */
    method ProcessAll(b: Batch)
      requires db.Valid() && ValidBatch(b)
      modifies this, db
      ensures db.Valid() && Abs() == CertifyAll(old(Abs()), Requests(b))
    {
      hide Certify, Inv, IsSerialIndex, IsNameIndex;
      ghost var start := Abs();
      ghost var options := One(b.spkac) + One(b.selfSigned) + One(b.infile);
      assert forall r | r in options + b.args :: ValidRequest(r);
      ProcessOption(b.spkac);
      ProcessOption(b.selfSigned);
      CertifyConcat(start, One(b.spkac), One(b.selfSigned));
      ProcessOption(b.infile);
      CertifyConcat(start, One(b.spkac) + One(b.selfSigned), One(b.infile));
      ghost var mid := Abs();
      for i := 0 to |b.args|
        invariant db.Valid() && Abs() == CertifyAll(mid, b.args[..i])
      {
        assert b.args[i] in options + b.args;
        assert b.args[..i + 1][..i] == b.args[..i];
        Process(b.args[i]);
      }
      assert b.args[..|b.args|] == b.args;
      CertifyConcat(start, options, b.args);
    }
  }

  lemma {:induction false} CertifyConcat(p: Progress, a: seq<Request>, b: seq<Request>)
    ensures CertifyAll(p, a + b) == CertifyAll(CertifyAll(p, a), b)
  {
    hide Certify;
    if b == [] {
      assert a + b == a;
    } else {
      CertifyConcat(p, a, b[..|b| - 1]);
      assert (a + b)[..|a + b| - 1] == a + b[..|b| - 1];
    }
  }

  // ----- conservation

  predicate Added(rows: seq<Row>, certs: seq<Cert>, rows': seq<Row>) {
    && |rows'| == |rows| + |certs| && rows'[..|rows|] == rows
    && forall k | 0 <= k < |certs| :: rows'[|rows| + k] == NewRow(certs[k])
  }

  /**
   However a batch ends: new rows, stacked certificates and the count of certified requests
   agree, the certificates have consecutive serials from the start value, the next serial is
   the start value plus the count, and every request was counted unless the batch failed.
   */
  lemma {:induction false} BatchConservation(db: Db, serial: int, rs: seq<Request>)
    requires forall r | r in rs :: ValidRequest(r)
    ensures var p := CertifyAll(Start(db, serial), rs);
            && p.done == |p.certs| && p.serial == serial + p.done
            && (forall k | 0 <= k < p.done :: p.certs[k].serial == serial + k)
            && Added(db.rows, p.certs, p.db.rows)
            && p.done <= p.total <= |rs| && (!p.failed ==> p.total == |rs|)
  {
    hide FindSerial, NameTaken, SerialText;
    if rs != [] {
      BatchConservation(db, serial, rs[..|rs| - 1]);
      var p := CertifyAll(Start(db, serial), rs[..|rs| - 1]);
      var r := rs[|rs| - 1];
      if !p.failed {
        var (db', j) := CertifyCode(p.db, p.serial, r);
        if r.Request? && j == 1 {
          assert db'.rows == p.db.rows + [NewRow(CertOf(r, p.serial))];
        }
      }
    }
  }

  /**
   The certificates are those of the requests at increasing positions, which the operator had
   signed, each with the subject and end date of its request and the next serial.
   */
  ghost predicate Certified(rs: seq<Request>, certs: seq<Cert>, serial: int, at: seq<nat>) {
    && |at| == |certs| && (forall j, k | 0 <= j < k < |at| :: at[j] < at[k])
    && forall k | 0 <= k < |at| ::
         && at[k] < |rs| && rs[at[k]].Request? && rs[at[k]].answer == Sign
         && certs[k] == Cert(rs[at[k]].subject, serial + k, rs[at[k]].expiry)
  }

  /** Every other request was turned away or declined. */
  ghost predicate OthersDeclined(rs: seq<Request>, at: seq<nat>) {
    forall i: nat | i < |rs| && i !in at ::
      rs[i] == Refused(0) || (rs[i].Request? && rs[i].answer == Decline)
  }

  /** Which requests of a batch are certified, and what their certificates hold. */
  lemma {:induction false} BatchRequests(db: Db, serial: int, rs: seq<Request>) returns (at: seq<nat>)
    requires forall r | r in rs :: ValidRequest(r)
    ensures var p := CertifyAll(Start(db, serial), rs);
            Certified(rs, p.certs, serial, at) && (!p.failed ==> OthersDeclined(rs, at))
  {
    hide Certify, Certified, OthersDeclined, Added;
    at := [];
    if rs == [] {
      NothingCertified(serial);
    } else {
      var n := |rs| - 1;
      var before := BatchRequests(db, serial, rs[..n]);
      BatchConservation(db, serial, rs[..n]);
      var p := CertifyAll(Start(db, serial), rs[..n]);
      CertifyOne(p, rs[n]);
      at := if |Certify(p, rs[n]).certs| > |p.certs| then before + [n] else before;
      CertifiedMore(rs, p.certs, serial, before, Certify(p, rs[n]).certs);
      if !Certify(p, rs[n]).failed { DeclinedMore(rs, before, at); }
    }
  }

  lemma NothingCertified(serial: int)
    ensures Certified([], [], serial, []) && OthersDeclined([], [])
  {
  }

  /** One request either is certified, for what it asks and under the next serial, or adds nothing. */
  lemma CertifyOne(p: Progress, r: Request)
    requires ValidRequest(r)
    ensures var q := Certify(p, r);
            && (q.certs == p.certs
                || (r.Request? && r.answer == Sign && q.certs == p.certs + [Cert(r.subject, p.serial, r.expiry)]))
            && (!q.failed ==>
                  && !p.failed
                  && (q.certs == p.certs ==> r == Refused(0) || (r.Request? && r.answer == Decline)))
  {
    hide FindSerial, NameTaken, SerialText;
  }

  lemma CertifiedMore(rs: seq<Request>, certs: seq<Cert>, serial: int, at: seq<nat>, certs': seq<Cert>)
    requires rs != [] && Certified(rs[..|rs| - 1], certs, serial, at)
    requires var r := rs[|rs| - 1];
             || certs' == certs
             || (r.Request? && r.answer == Sign && certs' == certs + [Cert(r.subject, serial + |certs|, r.expiry)])
    ensures Certified(rs, certs', serial, if |certs'| > |certs| then at + [|rs| - 1] else at)
  {
    assert forall k | 0 <= k < |at| :: rs[..|rs| - 1][at[k]] == rs[at[k]];
  }

  lemma DeclinedMore(rs: seq<Request>, at: seq<nat>, at': seq<nat>)
    requires rs != [] && OthersDeclined(rs[..|rs| - 1], at)
    requires var r := rs[|rs| - 1];
             || at' == at + [|rs| - 1]
             || (at' == at && (r == Refused(0) || (r.Request? && r.answer == Decline)))
    ensures OthersDeclined(rs, at')
  {
    forall i: nat | i < |rs| && i !in at' ensures rs[i] == Refused(0) || (rs[i].Request? && rs[i].answer == Decline) {
      if i < |rs| - 1 { assert i !in at && rs[..|rs| - 1][i] == rs[i]; }
    }
  }

  /** -spkac comes first, then -ss_cert, then -in, then the arguments in order. */
  lemma RequestsInOrder(b: Batch)
    ensures b.spkac.Some? ==> |Requests(b)| > 0 && Requests(b)[0] == b.spkac.value
    ensures var n := if b.spkac.Some? then 1 else 0;
            var m := n + if b.selfSigned.Some? then 1 else 0;
            var l := m + if b.infile.Some? then 1 else 0;
            && |Requests(b)| == l + |b.args|
            && (b.selfSigned.Some? ==> Requests(b)[n] == b.selfSigned.value)
            && (b.infile.Some? ==> Requests(b)[m] == b.infile.value)
            && Requests(b)[l..] == b.args
  {
  }

  predicate RowBelow(r: Row, counter: int) {
    SerialSyntax(r.serial) && SerialValue(r.serial) < counter
  }

  /** Every row's number is below the counter. */
  predicate Below(rows: seq<Row>, counter: int) {
    forall r | r in rows :: RowBelow(r, counter)
  }

  /** An earlier row had this serial, and was not below the counter of its time. */
  predicate AlreadyAbove(rows: seq<Row>, counter: int, serial: string) {
    exists r | r in rows :: r.serial == serial && !RowBelow(r, counter)
  }

  /** Since the earlier rows and counter, no serial has come to stand at or above the counter. */
  predicate NoneAbove(rows: seq<Row>, counter: int, rows': seq<Row>, counter': int) {
    forall r | r in rows' :: RowBelow(r, counter') || AlreadyAbove(rows, counter, r.serial)
  }

  /** In particular a counter above every serial stays so. */
  lemma StaysBelow(rows: seq<Row>, counter: int, rows': seq<Row>, counter': int)
    requires NoneAbove(rows, counter, rows', counter') && Below(rows, counter)
    ensures Below(rows', counter')
  {
    hide RowBelow;
  }

  lemma AddedBelow(rows: seq<Row>, certs: seq<Cert>, rows': seq<Row>, serial: int)
    requires Added(rows, certs, rows')
    requires forall k | 0 <= k < |certs| :: certs[k].serial == serial + k
    ensures NoneAbove(rows, serial, rows', serial + |certs|)
  {
    hide SerialText, SerialValue, SerialSyntax;
    forall i | 0 <= i < |rows'|
      ensures RowBelow(rows'[i], serial + |certs|) || AlreadyAbove(rows, serial, rows'[i].serial)
    {
      if i < |rows| {
        assert rows'[i] == rows'[..|rows|][i] && rows[i] in rows;
      } else {
        var k := i - |rows|;
        assert rows'[|rows| + k] == NewRow(certs[k]);
        SerialTextRoundTrip(certs[k].serial);
      }
    }
  }

  /** The next serial of a batch is taken only by a row that was there before the batch. */
  lemma NextIsNotNew(rows: seq<Row>, certs: seq<Cert>, rows': seq<Row>, serial: int)
    requires Added(rows, certs, rows')
    requires forall k | 0 <= k < |certs| :: certs[k].serial == serial + k
    ensures var next := SerialText(serial + |certs|);
            FindSerial(rows', next) == -1 <==> FindSerial(rows, next) == -1
  {
    hide SerialText, SerialValue, SerialSyntax, Key;
    var n := serial + |certs|;
    var at, at' := FindSerial(rows, SerialText(n)), FindSerial(rows', SerialText(n));
    if at >= 0 { assert rows'[at] == rows'[..|rows|][at]; }
    if 0 <= at' < |rows| {
      assert rows'[at'] == rows'[..|rows|][at'];
    } else if at' >= |rows| {
      var k := at' - |rows|;
      assert rows'[|rows| + k] == NewRow(certs[k]);
      SerialTextRoundTrip(certs[k].serial);
      SerialTextRoundTrip(n);
      CanonicalKeys(SerialText(certs[k].serial), SerialText(n));
    }
  }

  /**
   For every database and batch: no serial that the batch issued is at or above the counter it
   leaves, and the next serial clashes only with a row that was there before. So a counter above
   every serial stays above every serial and the batch never meets a serial clash.
   */
  lemma BatchStaysBelow(db: Db, serial: int, rs: seq<Request>)
    requires forall r | r in rs :: ValidRequest(r)
    ensures var p := CertifyAll(Start(db, serial), rs);
            var next := SerialText(p.serial);
            && NoneAbove(db.rows, serial, p.db.rows, p.serial)
            && (FindSerial(p.db.rows, next) == -1 <==> FindSerial(db.rows, next) == -1)
            && (Below(db.rows, serial) ==> Below(p.db.rows, p.serial) && FindSerial(p.db.rows, next) == -1)
  {
    hide CertifyAll, Added, NoneAbove, Below, FindSerial;
    BatchConservation(db, serial, rs);
    var p := CertifyAll(Start(db, serial), rs);
    AddedBelow(db.rows, p.certs, p.db.rows, serial);
    NextIsNotNew(db.rows, p.certs, p.db.rows, serial);
    if Below(db.rows, serial) {
      StaysBelow(db.rows, serial, p.db.rows, p.serial);
      BelowNotFound(p.db.rows, p.serial);
    }
  }

  lemma BelowNotFound(rows: seq<Row>, counter: int)
    requires Below(rows, counter)
    ensures FindSerial(rows, SerialText(counter)) == -1
  {
    var at := FindSerial(rows, SerialText(counter));
    if at >= 0 {
      assert rows[at] in rows && RowBelow(rows[at], counter);
      FoundByNumber(rows[at].serial, counter);
    }
  }

  /**
   A revocation or import leaves a new serial at or above the counter exactly when neither index
   has the certificate's key and its number is not below the counter.
   */
  lemma RevokeStaysBelow(db: Db, cert: Cert, how: Revocation, field: Option<string>, counter: int)
    requires Inv(db)
    ensures var last := RevokeStep(db, cert, how, field).0.rows;
            var kept := !MayAdd(db, cert) || cert.serial < counter;
            && (NoneAbove(db.rows, counter, last, counter) <==> kept)
            && (Below(db.rows, counter) ==> (Below(last, counter) <==> kept))
  {
    hide SerialText, SerialValue, SerialSyntax, Key, Inv, MayAdd, RevokeStep;
    var last := RevokeStep(db, cert, how, field).0.rows;
    var n := |db.rows|;
    RevokeInv(db, cert, how, field);
    RevokeAdds(db, cert, how, field);
    forall i | 0 <= i < n ensures RowBelow(last[i], counter) || AlreadyAbove(db.rows, counter, last[i].serial) {
      assert RowEvolves(db.rows[i], last[i]) && db.rows[i] in db.rows;
    }
    if |last| > n {
      var serial := last[n].serial;
      assert serial == SerialText(cert.serial) && last[n] in last;
      SerialTextRoundTrip(cert.serial);
      assert !AlreadyAbove(db.rows, counter, serial) by { NotAmong(db, cert); }
    }
    if NoneAbove(db.rows, counter, last, counter) && Below(db.rows, counter) {
      StaysBelow(db.rows, counter, last, counter);
    }
  }

  /** Marking rows as expired leaves every serial where it was. */
  lemma ExpireStaysBelow(lib: Asn1, db: Db, clock: int, counter: int)
    requires Inv(db)
    ensures NoneAbove(db.rows, counter, ExpireStep(lib, db, clock).0.rows, counter)
  {
    hide SerialSyntax, SerialValue, ExpireStep, Inv;
    var last := ExpireStep(lib, db, clock).0.rows;
    ExpireInv(lib, db, clock);
    ExpireLength(lib, db, clock);
    forall i | 0 <= i < |last| ensures RowBelow(last[i], counter) || AlreadyAbove(db.rows, counter, last[i].serial) {
      assert RowEvolves(db.rows[i], last[i]) && db.rows[i] in db.rows;
    }
  }

  lemma ExpireLength(lib: Asn1, db: Db, clock: int)
    ensures |ExpireStep(lib, db, clock).0.rows| == |db.rows|
  {
  }

  /** A row is added only under a serial that no row has. */
  lemma NotAmong(db: Db, cert: Cert)
    requires MayAdd(db, cert)
    ensures forall r | r in db.rows :: r.serial != SerialText(cert.serial)
  {
    hide SerialText, Key;
  }
}
