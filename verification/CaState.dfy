/**
 The certificate authority database as a state machine: issuing, revoking, importing as valid
 and marking as expired. Lookups are stated over the rows themselves; the indices that
 answer them are in CaDatabase.
 */
module CaState {
  import opened Common
  import opened AsnTime
  import opened RevocationInfo
  import opened TextDb
  import opened SerialHex

  /** The first character of the type column. */
  predicate IsKind(r: Row, c: char) {
    r.kind != "" && r.kind[0] == c
  }

  predicate Valid(r: Row) { IsKind(r, 'V') }

  predicate Revoked(r: Row) { IsKind(r, 'R') }

  /**
   The rows, whether subjects must be unique, and the positions held by the name index. The
   index is built over the valid rows when the database is loaded and grows by insertion;
   revoking or expiring a row changes the row but not the index.
   */
  datatype Db = Db(rows: seq<Row>, unique: bool, named: set<nat>)

  /** The position of the first row with this serial as the serial index compares it, or -1. */
  function FindSerial(rows: seq<Row>, serial: string): (i: int)
    ensures -1 <= i < |rows|
    ensures i >= 0 ==> Key(rows[i].serial) == Key(serial)
    ensures forall k | 0 <= k < |rows| && (i == -1 || k < i) :: Key(rows[k].serial) != Key(serial)
  {
    if rows == [] then -1
    else if Key(rows[0].serial) == Key(serial) then 0
    else
      var i := FindSerial(rows[1..], serial);
      assert forall k | 0 < k < |rows| :: rows[k] == rows[1..][k - 1];
      if i == -1 then -1 else i + 1
  }

  predicate NameTaken(db: Db, name: string) {
    exists i | i in db.named :: i < |db.rows| && db.rows[i].name == name
  }

  /** TXT_DB_insert(): refused when an index that covers the row already has its key. */
  function Insert(db: Db, row: Row): (Db, bool) {
    if FindSerial(db.rows, row.serial) != -1 || (db.unique && Valid(row) && NameTaken(db, row.name))
    then (db, false)
    else (Db(db.rows + [row], db.unique,
             db.named + if db.unique && Valid(row) then {|db.rows|} else {}), true)
  }

  /** What the database takes from a certificate. */
  datatype Cert = Cert(subject: string, serial: int, expiry: string)

  /** A row for a certificate; an empty subject is replaced by the serial. */
  function NewRow(cert: Cert): Row {
    var serial := SerialText(cert.serial);
    Row("V", cert.expiry, "", serial, "unknown", if cert.subject == "" then serial else cert.subject)
  }

  /** The operator's answer, or a failing signature. */
  datatype Answer = Sign | Decline | SignFails

  /** do_body() from the clash checks on; 1 certified, 0 declined, -1 error. */
  function IssueStep(db: Db, cert: Cert, answer: Answer): (Db, int) {
    var row := NewRow(cert);
    if (db.unique && NameTaken(db, row.name)) || FindSerial(db.rows, row.serial) != -1 then (db, -1)
    else if answer == Decline then (db, 0)
    else if answer == SignFails then (db, -1)
    else
      var (db', ok) := Insert(db, row);
      (db', if ok then 1 else -1)
  }

  /**
   do_revoke() when row i has the serial of the certificate. The column to write, if the
   revocation arguments are acceptable, is given as field.
   */
  function RevokePresent(db: Db, i: nat, row: Row, how: Revocation, field: Option<string>): (Db, int)
    requires i < |db.rows|
  {
    var r := db.rows[i];
    if r.name != row.name || how == AsValid || Revoked(r) || field.None? then (db, -1)
    else (db.(rows := db.rows[i := r.(kind := "R", revocation := field.value)]), 1)
  }

  /** do_revoke(): an absent certificate is inserted as valid first. */
  function RevokeStep(db: Db, cert: Cert, how: Revocation, field: Option<string>): (Db, int) {
    var row := NewRow(cert);
    var i := FindSerial(db.rows, row.serial);
    if i != -1 then RevokePresent(db, i, row, how, field)
    else
      var (db', ok) := Insert(db, row);
      if !ok then (db, -1)
      else if how == AsValid then (db', 1)
      else RevokePresent(db', |db.rows|, row, how, field)
  }

  predicate BadExpiry(lib: Asn1, r: Row) {
    Valid(r) && lib.timeOf(r.expiry).None?
  }

  predicate Due(lib: Asn1, r: Row, clock: int) {
    Valid(r) && lib.timeOf(r.expiry).Some? && lib.timeOf(r.expiry).value <= clock
  }

  /** The first valid row whose expiry date cannot be read, or the number of rows. */
  function Horizon(lib: Asn1, rows: seq<Row>): (n: nat)
    ensures n <= |rows| && (n < |rows| ==> BadExpiry(lib, rows[n]))
    ensures forall k | 0 <= k < n :: !BadExpiry(lib, rows[k])
  {
    if rows == [] || BadExpiry(lib, rows[0]) then 0
    else
      assert forall k | 0 < k < |rows| :: rows[k] == rows[1..][k - 1];
      1 + Horizon(lib, rows[1..])
  }

  function ExpireRow(lib: Asn1, r: Row, clock: int): Row {
    if Due(lib, r, clock) then r.(kind := "E") else r
  }

  /** The number of due rows among the first n. */
  function DueCount(lib: Asn1, rows: seq<Row>, clock: int, n: nat): nat
    requires n <= |rows|
  {
    if n == 0 then 0
    else DueCount(lib, rows, clock, n - 1) + if Due(lib, rows[n - 1], clock) then 1 else 0
  }

  /** do_updatedb(): stops with -1 at an unreadable date, keeping what it already changed. */
  function ExpireStep(lib: Asn1, db: Db, clock: int): (Db, int) {
    var n := Horizon(lib, db.rows);
    (db.(rows := seq(|db.rows|, i requires 0 <= i < |db.rows| =>
                       if i < n then ExpireRow(lib, db.rows[i], clock) else db.rows[i])),
     if n < |db.rows| then -1 else DueCount(lib, db.rows, clock, n))
  }

  datatype Event =
    | Issue(cert: Cert, answer: Answer)
    | Revoke(cert: Cert, how: Revocation, now: Tm)
    | UpdateDb(clock: int)

  predicate ValidEvent(e: Event) {
    e.Revoke? ==> ValidTm(e.now)
  }

  function Step(lib: Asn1, db: Db, e: Event): (Db, int)
    requires ValidEvent(e)
  {
    match e
    case Issue(cert, answer) => IssueStep(db, cert, answer)
    case Revoke(cert, how, now) => RevokeStep(db, cert, how, RevocationField(lib, how, now))
    case UpdateDb(clock) => ExpireStep(lib, db, clock)
  }

  function Run(lib: Asn1, db: Db, es: seq<Event>): Db
    requires forall e | e in es :: ValidEvent(e)
    decreases |es|
  {
    if es == [] then db else Run(lib, Step(lib, db, es[0]).0, es[1..])
  }

  // ----- loading

  /** The checks ca makes on every row it loads. */
  predicate RowOk(lib: Asn1, r: Row) {
    && (!Revoked(r) ==> r.revocation == "")
    && (Revoked(r) ==> Unpacked(lib, r.revocation).Some?)
    && lib.timeOf(r.expiry).Some?
    && SerialSyntax(r.serial)
  }

  predicate LoadOk(lib: Asn1, rows: seq<Row>) {
    forall i | 0 <= i < |rows| :: RowOk(lib, rows[i])
  }

  predicate DistinctSerials(rows: seq<Row>) {
    forall i, j | 0 <= i < j < |rows| :: Key(rows[i].serial) != Key(rows[j].serial)
  }

  /** No two valid rows share a subject. */
  predicate UniqueSubjects(rows: seq<Row>) {
    forall i, j | 0 <= i < j < |rows| && Valid(rows[i]) && Valid(rows[j]) :: rows[i].name != rows[j].name
  }

  function ValidRows(rows: seq<Row>): set<nat> {
    set i: nat | i < |rows| && Valid(rows[i])
  }

  /** index_index(): None when a key occurs twice. */
  function Indexed(rows: seq<Row>, unique: bool): Option<Db> {
    if DistinctSerials(rows) && (unique ==> UniqueSubjects(rows))
    then Some(Db(rows, unique, if unique then ValidRows(rows) else {})) else None
  }

  // ----- the invariant

  /** The name index covers at least the valid rows, and its names differ. */
  predicate Inv(db: Db) {
    && DistinctSerials(db.rows)
    && (forall i | i in db.named :: i < |db.rows|)
    && (db.unique ==> forall i: nat | i < |db.rows| && Valid(db.rows[i]) :: i in db.named)
    && (forall i, j | i in db.named && j in db.named && i != j :: db.rows[i].name != db.rows[j].name)
  }

  /** A row keeps its identity; its status moves from valid to expired, or from any other status to revoked. */
  predicate RowEvolves(a: Row, b: Row) {
    && b.serial == a.serial && b.name == a.name && b.expiry == a.expiry && b.file == a.file
    && (b == a
        || (Valid(a) && b.kind == "E" && b.revocation == a.revocation)
        || (!Revoked(a) && b.kind == "R"))
  }

  predicate Evolves(a: seq<Row>, b: seq<Row>) {
    |a| <= |b| && forall i | 0 <= i < |a| :: RowEvolves(a[i], b[i])
  }

  lemma IndexedInv(rows: seq<Row>, unique: bool)
    ensures Indexed(rows, unique).Some? ==> Inv(Indexed(rows, unique).value)
  {
  }

  lemma InsertInv(db: Db, row: Row)
    requires Inv(db)
    ensures Inv(Insert(db, row).0) && Evolves(db.rows, Insert(db, row).0.rows)
  {
  }

  /** Changing rows in place without making any valid keeps the invariant. */
  lemma ChangeInv(db: Db, rows: seq<Row>)
    requires Inv(db) && |rows| == |db.rows| && Evolves(db.rows, rows)
    ensures Inv(db.(rows := rows))
  {
  }

  lemma RevokePresentInv(db: Db, i: nat, row: Row, how: Revocation, field: Option<string>)
    requires Inv(db) && i < |db.rows|
    ensures var last := RevokePresent(db, i, row, how, field).0;
            Inv(last) && Evolves(db.rows, last.rows) && last.unique == db.unique
  {
    ChangeInv(db, RevokePresent(db, i, row, how, field).0.rows);
  }

  lemma RevokeInv(db: Db, cert: Cert, how: Revocation, field: Option<string>)
    requires Inv(db)
    ensures var last := RevokeStep(db, cert, how, field).0;
            Inv(last) && Evolves(db.rows, last.rows) && last.unique == db.unique
  {
    var row := NewRow(cert);
    var i := FindSerial(db.rows, row.serial);
    if i != -1 {
      RevokePresentInv(db, i, row, how, field);
    } else {
      InsertInv(db, row);
      var mid := Insert(db, row).0;
      if Insert(db, row).1 && how != AsValid {
        RevokePresentInv(mid, |db.rows|, row, how, field);
        EvolvesTransitive(db.rows, mid.rows, RevokeStep(db, cert, how, field).0.rows);
      }
    }
  }

  lemma ExpireInv(lib: Asn1, db: Db, clock: int)
    requires Inv(db)
    ensures var last := ExpireStep(lib, db, clock).0;
            Inv(last) && Evolves(db.rows, last.rows) && last.unique == db.unique
  {
    ChangeInv(db, ExpireStep(lib, db, clock).0.rows);
  }

  lemma StepInv(lib: Asn1, db: Db, e: Event)
    requires Inv(db) && ValidEvent(e)
    ensures Inv(Step(lib, db, e).0)
    ensures Evolves(db.rows, Step(lib, db, e).0.rows) && Step(lib, db, e).0.unique == db.unique
  {
    match e
    case Issue(cert, answer) => InsertInv(db, NewRow(cert));
    case Revoke(cert, how, now) => RevokeInv(db, cert, how, RevocationField(lib, how, now));
    case UpdateDb(clock) => ExpireInv(lib, db, clock);
  }

  lemma EvolvesTransitive(a: seq<Row>, b: seq<Row>, c: seq<Row>)
    requires Evolves(a, b) && Evolves(b, c)
    ensures Evolves(a, c)
  {
    forall i | 0 <= i < |a| ensures RowEvolves(a[i], c[i]) {
      assert RowEvolves(a[i], b[i]) && RowEvolves(b[i], c[i]);
    }
  }

  /** Over every run the invariant holds, no row disappears and every row only evolves. */
  lemma {:induction false} RunInv(lib: Asn1, db: Db, es: seq<Event>)
    requires Inv(db) && forall e | e in es :: ValidEvent(e)
    ensures Inv(Run(lib, db, es))
    ensures Evolves(db.rows, Run(lib, db, es).rows) && Run(lib, db, es).unique == db.unique
    decreases |es|
  {
    if es != [] {
      var next := Step(lib, db, es[0]).0;
      StepInv(lib, db, es[0]);
      RunInv(lib, next, es[1..]);
      EvolvesTransitive(db.rows, next.rows, Run(lib, db, es).rows);
    }
  }

  /**
   After any sequence of steps from a database that could be indexed: serials are pairwise
   distinct, and with unique_subject on no two valid rows share a subject, although
   revocation and expiry never update the name index.
   */
  lemma RunSafety(lib: Asn1, rows: seq<Row>, unique: bool, es: seq<Event>)
    requires Indexed(rows, unique).Some? && forall e | e in es :: ValidEvent(e)
    ensures var last := Run(lib, Indexed(rows, unique).value, es);
            && DistinctSerials(last.rows)
            && (unique ==> UniqueSubjects(last.rows))
            && Evolves(rows, last.rows)
  {
    IndexedInv(rows, unique);
    RunInv(lib, Indexed(rows, unique).value, es);
  }
}
