/** What the steps of the certificate database guarantee, singly and over whole runs. */
module CaProperties {
  import opened Common
  import opened AsnTime
  import opened RevocationInfo
  import opened TextDb
  import opened SerialHex
  import opened CaState

  // ----- issuing

  /** Neither index has the certificate's key. */
  predicate MayAdd(db: Db, cert: Cert) {
    var row := NewRow(cert);
    FindSerial(db.rows, row.serial) == -1 && !(db.unique && NameTaken(db, row.name))
  }

  /**
   A certified request adds exactly one row: valid, unrevoked, with the certificate's number,
   date and subject (the serial text for an empty subject). Any other outcome changes nothing.
   */
  lemma IssueOutcome(db: Db, cert: Cert, answer: Answer)
    ensures var (last, code) := IssueStep(db, cert, answer);
            var name := if cert.subject == "" then SerialText(cert.serial) else cert.subject;
            var free := FindSerial(db.rows, SerialText(cert.serial)) == -1 && !(db.unique && NameTaken(db, name));
            && code in {-1, 0, 1} && (code != 1 ==> last == db)
            && (code == 0 <==> free && answer == Decline) && (code == 1 <==> free && answer == Sign)
            && (code == 1 ==>
                  && |last.rows| == |db.rows| + 1 && last.rows[..|db.rows|] == db.rows
                  && var r := last.rows[|db.rows|];
                     && r.kind == "V" && r.revocation == "" && r.expiry == cert.expiry && r.file == "unknown"
                     && r.name == name
                     && SerialSyntax(r.serial) && SerialValue(r.serial) == cert.serial)
  {
    hide SerialText, SerialValue, SerialSyntax, FindSerial, NameTaken;
    SerialTextRoundTrip(cert.serial);
  }

  // ----- names that a run refuses

  /** A valid row has the name. */
  predicate HasValid(rows: seq<Row>, name: string) {
    exists i | 0 <= i < |rows| :: Valid(rows[i]) && rows[i].name == name
  }

  /** Row i entered the name index, as a valid row of the loaded database or by insertion, and is valid no more. */
  predicate Stale(loaded: seq<Row>, rows: seq<Row>, i: nat)
    requires i < |rows|
  {
    !Valid(rows[i]) && (i < |loaded| ==> Valid(loaded[i]))
  }

  predicate HasStale(loaded: seq<Row>, rows: seq<Row>, name: string) {
    exists i | 0 <= i < |rows| :: Stale(loaded, rows, i) && rows[i].name == name
  }

  /** The name index holds exactly the rows that were valid when it was built or that were inserted since. */
  ghost predicate NamesExact(loaded: seq<Row>, db: Db) {
    && db.unique && |loaded| <= |db.rows|
    && forall i: nat :: i in db.named <==> i < |db.rows| && (i < |loaded| ==> Valid(loaded[i]))
  }

  lemma StepNames(lib: Asn1, loaded: seq<Row>, db: Db, e: Event)
    requires NamesExact(loaded, db) && ValidEvent(e)
    ensures NamesExact(loaded, Step(lib, db, e).0)
  {
    hide FindSerial, NameTaken, SerialText, RevocationField;
  }

  lemma {:induction false} RunNames(lib: Asn1, loaded: seq<Row>, db: Db, es: seq<Event>)
    requires NamesExact(loaded, db) && forall e | e in es :: ValidEvent(e)
    ensures NamesExact(loaded, Run(lib, db, es))
    decreases |es|
  {
    hide NamesExact, Step;
    if es != [] {
      StepNames(lib, loaded, db, es[0]);
      RunNames(lib, loaded, Step(lib, db, es[0]).0, es[1..]);
    }
  }

  /**
   Over every run with unique_subject on: a name is refused exactly when a valid row has it,
   or a row that was valid when it entered the index and has been revoked or expired since.
   No name is refused for both reasons.
   */
  lemma RefusedNames(lib: Asn1, loaded: seq<Row>, es: seq<Event>, name: string)
    requires Indexed(loaded, true).Some? && forall e | e in es :: ValidEvent(e)
    ensures var last := Run(lib, Indexed(loaded, true).value, es);
            && (NameTaken(last, name) <==> HasValid(last.rows, name) || HasStale(loaded, last.rows, name))
            && !(HasValid(last.rows, name) && HasStale(loaded, last.rows, name))
  {
    hide Run, DistinctSerials;
    var db := Indexed(loaded, true).value;
    IndexedInv(loaded, true);
    RunInv(lib, db, es);
    RunNames(lib, loaded, db, es);
    var last := Run(lib, db, es);
    assert forall i: nat | i < |last.rows| :: i in last.named <==> Valid(last.rows[i]) || Stale(loaded, last.rows, i);
  }

  /** Loading the saved rows again frees exactly the stale names. */
  lemma NamesFreedByLoading(lib: Asn1, loaded: seq<Row>, es: seq<Event>, name: string)
    requires Indexed(loaded, true).Some? && forall e | e in es :: ValidEvent(e)
    ensures var last := Run(lib, Indexed(loaded, true).value, es);
            && Indexed(last.rows, true).Some?
            && (NameTaken(Indexed(last.rows, true).value, name) <==> HasValid(last.rows, name))
            && (NameTaken(last, name) && !NameTaken(Indexed(last.rows, true).value, name) <==>
                  HasStale(loaded, last.rows, name))
  {
    hide Run, HasStale;
    RunSafety(lib, loaded, true, es);
    RefusedNames(lib, loaded, es, name);
    var last := Run(lib, Indexed(loaded, true).value, es);
    assert forall i: nat | i < |last.rows| :: i in Indexed(last.rows, true).value.named <==> Valid(last.rows[i]);
  }

  predicate NoneStale(loaded: seq<Row>, rows: seq<Row>) {
    forall i: nat | i < |rows| :: !Stale(loaded, rows, i)
  }

  /**
   The step will make no row stale: -updatedb meets no due row before an unreadable date, and a
   revocation with acceptable arguments meets no valid row of this name and adds none.
   */
  predicate QuietStep(lib: Asn1, db: Db, e: Event) {
    match e
    case Issue(_, _) => true
    case Revoke(cert, how, _) =>
      var row := NewRow(cert);
      var i := FindSerial(db.rows, row.serial);
      how != AsValid && ReasonWords(lib, how).Some? ==>
        if i == -1 then !MayAdd(db, cert) else !(Valid(db.rows[i]) && db.rows[i].name == row.name)
    case UpdateDb(clock) => forall k | 0 <= k < Horizon(lib, db.rows) :: !Due(lib, db.rows[k], clock)
  }

  predicate QuietRun(lib: Asn1, db: Db, es: seq<Event>)
    requires forall e | e in es :: ValidEvent(e)
    decreases |es|
  {
    es == [] || (QuietStep(lib, db, es[0]) && QuietRun(lib, Step(lib, db, es[0]).0, es[1..]))
  }

  /** A row that is valid no more never becomes valid again. */
  lemma StaleStays(loaded: seq<Row>, a: seq<Row>, b: seq<Row>)
    requires Evolves(a, b) && !NoneStale(loaded, a)
    ensures !NoneStale(loaded, b)
  {
    var i: nat :| i < |a| && Stale(loaded, a, i);
    assert RowEvolves(a[i], b[i]) && Stale(loaded, b, i);
  }

  lemma OthersKept(loaded: seq<Row>, a: seq<Row>, b: seq<Row>, i: nat)
    requires i < |b| && |a| <= |b| <= |a| + 1 && (|a| < |b| ==> i == |a|)
    requires NoneStale(loaded, a) && forall k | 0 <= k < |a| && k != i :: b[k] == a[k]
    ensures NoneStale(loaded, b) <==> !Stale(loaded, b, i)
  {
    forall k: nat | k < |b| && k != i ensures !Stale(loaded, b, k) {
      assert !Stale(loaded, a, k);
    }
  }

  lemma PresentQuiet(loaded: seq<Row>, db: Db, i: nat, row: Row, how: Revocation, field: Option<string>)
    requires i < |db.rows| && Evolves(loaded, db.rows) && NoneStale(loaded, db.rows)
    ensures NoneStale(loaded, RevokePresent(db, i, row, how, field).0.rows) <==>
              (how != AsValid && field.Some? ==> !(Valid(db.rows[i]) && db.rows[i].name == row.name))
  {
    var last := RevokePresent(db, i, row, how, field).0.rows;
    assert i < |loaded| ==> RowEvolves(loaded[i], db.rows[i]);
    assert !Stale(loaded, db.rows, i);
    OthersKept(loaded, db.rows, last, i);
  }

  lemma RevokeQuiet(loaded: seq<Row>, db: Db, cert: Cert, how: Revocation, field: Option<string>)
    requires Inv(db) && Evolves(loaded, db.rows) && NoneStale(loaded, db.rows)
    ensures var row := NewRow(cert);
            var i := FindSerial(db.rows, row.serial);
            NoneStale(loaded, RevokeStep(db, cert, how, field).0.rows) <==>
              (how != AsValid && field.Some? ==>
                 if i == -1 then !MayAdd(db, cert) else !(Valid(db.rows[i]) && db.rows[i].name == row.name))
  {
    hide FindSerial, NameTaken, SerialText, Inv, RevokePresent;
    var row := NewRow(cert);
    var i := FindSerial(db.rows, row.serial);
    if i != -1 {
      PresentQuiet(loaded, db, i, row, how, field);
    } else {
      var mid := Insert(db, row).0;
      if Insert(db, row).1 {
        OthersKept(loaded, db.rows, mid.rows, |db.rows|);
        assert Evolves(loaded, mid.rows);
        PresentQuiet(loaded, mid, |db.rows|, row, how, field);
      }
    }
  }

  lemma ExpireQuiet(lib: Asn1, loaded: seq<Row>, db: Db, clock: int)
    requires Evolves(loaded, db.rows) && NoneStale(loaded, db.rows)
    ensures NoneStale(loaded, ExpireStep(lib, db, clock).0.rows) <==>
              forall k | 0 <= k < Horizon(lib, db.rows) :: !Due(lib, db.rows[k], clock)
  {
    var last := ExpireStep(lib, db, clock).0.rows;
    if k :| 0 <= k < Horizon(lib, db.rows) && Due(lib, db.rows[k], clock) {
      assert k < |loaded| ==> RowEvolves(loaded[k], db.rows[k]);
      assert Stale(loaded, last, k);
    } else {
      assert last == db.rows;
    }
  }

  lemma StepQuiet(lib: Asn1, loaded: seq<Row>, db: Db, e: Event)
    requires Inv(db) && ValidEvent(e) && Evolves(loaded, db.rows) && NoneStale(loaded, db.rows)
    ensures NoneStale(loaded, Step(lib, db, e).0.rows) <==> QuietStep(lib, db, e)
  {
    hide FindSerial, NameTaken, SerialText, Inv, RevokeStep, ExpireStep, GmText;
    match e
    case Issue(cert, answer) =>
      var last := Step(lib, db, e).0.rows;
      if |last| > |db.rows| { OthersKept(loaded, db.rows, last, |db.rows|); }
    case Revoke(cert, how, now) => RevokeQuiet(loaded, db, cert, how, RevocationField(lib, how, now));
    case UpdateDb(clock) => ExpireQuiet(lib, loaded, db, clock);
  }

  /** Over every run: no row is stale exactly when every step was quiet as it was taken. */
  lemma {:induction false} RunQuiet(lib: Asn1, loaded: seq<Row>, db: Db, es: seq<Event>)
    requires Inv(db) && Evolves(loaded, db.rows) && NoneStale(loaded, db.rows)
    requires forall e | e in es :: ValidEvent(e)
    ensures NoneStale(loaded, Run(lib, db, es).rows) <==> QuietRun(lib, db, es)
    decreases |es|
  {
    hide Inv, Step, QuietStep, NoneStale, Evolves;
    if es != [] {
      var next := Step(lib, db, es[0]).0;
      StepInv(lib, db, es[0]);
      EvolvesTransitive(loaded, db.rows, next.rows);
      StepQuiet(lib, loaded, db, es[0]);
      if QuietStep(lib, db, es[0]) {
        RunQuiet(lib, loaded, next, es[1..]);
      } else {
        RunInv(lib, next, es[1..]);
        StaleStays(loaded, next.rows, Run(lib, db, es).rows);
      }
    }
  }

  /**
   So a run refuses the names of the valid rows and no others if and only if every step was
   quiet, that is, if and only if it made no row stale.
   */
  lemma RefusalsAreValidNames(lib: Asn1, loaded: seq<Row>, es: seq<Event>)
    requires Indexed(loaded, true).Some? && forall e | e in es :: ValidEvent(e)
    ensures var db := Indexed(loaded, true).value;
            var last := Run(lib, db, es);
            && ((forall name :: NameTaken(last, name) <==> HasValid(last.rows, name)) <==> QuietRun(lib, db, es))
            && (QuietRun(lib, db, es) <==> NoneStale(loaded, last.rows))
  {
    hide Run, QuietRun, NameTaken, HasValid, Stale, Inv, Evolves;
    var db := Indexed(loaded, true).value;
    var last := Run(lib, db, es);
    forall name
      ensures NameTaken(last, name) <==> HasValid(last.rows, name) || HasStale(loaded, last.rows, name)
      ensures !(HasValid(last.rows, name) && HasStale(loaded, last.rows, name))
    {
      RefusedNames(lib, loaded, es, name);
    }
    if i: nat :| i < |last.rows| && Stale(loaded, last.rows, i) {
      assert HasStale(loaded, last.rows, last.rows[i].name);
    }
    IndexedInv(loaded, true);
    StartsQuiet(loaded);
    RunQuiet(lib, loaded, db, es);
  }

  lemma StartsQuiet(loaded: seq<Row>)
    ensures Evolves(loaded, loaded) && NoneStale(loaded, loaded)
  {
  }

  /** An instance: after -updatedb has expired its only row, the same run refuses the subject of that row. */
  lemma ExpiredNameStaysTaken(lib: Asn1, r: Row, clock: int, cert: Cert, answer: Answer)
    requires Due(lib, r, clock) && cert.subject == r.name != "" && Key(r.serial) != Key(SerialText(cert.serial))
    ensures Indexed([r], true).Some?
    ensures var last := Run(lib, Indexed([r], true).value, [UpdateDb(clock)]);
            && last.rows == [r.(kind := "E")]
            && IssueStep(last, cert, answer) == (last, -1)
            && Indexed(last.rows, true).Some?
            && IssueStep(Indexed(last.rows, true).value, cert, Sign).1 == 1
  {
    hide SerialText, Key;
    var db := Indexed([r], true).value;
    var es := [UpdateDb(clock)];
    var last := ExpireStep(lib, db, clock).0;
    assert es[1..] == [] && Run(lib, db, es) == Run(lib, last, es[1..]);
    assert [r][1..] == [] && Horizon(lib, [r]) == 1;
    assert last.rows == [r.(kind := "E")];
    assert 0 in last.named && last.rows[0].name == cert.subject;
    assert FindSerial(last.rows, SerialText(cert.serial)) == -1;
  }

  // ----- revoking

  /**
   Revoking or importing succeeds exactly when the serial is new and its subject may be added,
   or it belongs to an unrevoked row with this subject (which cannot be imported again); and a
   revocation needs acceptable arguments.
   */
  lemma RevokeOutcome(db: Db, cert: Cert, how: Revocation, field: Option<string>)
    ensures var serial := SerialText(cert.serial);
            var name := if cert.subject == "" then serial else cert.subject;
            var i := FindSerial(db.rows, serial);
            RevokeStep(db, cert, how, field).1 == 1 <==>
              && (how == AsValid || field.Some?)
              && if i == -1 then !(db.unique && NameTaken(db, name))
                 else how != AsValid && db.rows[i].name == name && !Revoked(db.rows[i])
  {
    hide SerialText, FindSerial, NameTaken;
  }

  /** An import adds the valid row of the certificate and touches nothing else. */
  lemma ImportOutcome(db: Db, cert: Cert, field: Option<string>)
    ensures var (last, code) := RevokeStep(db, cert, AsValid, field);
            last.rows == if code == 1 then db.rows + [NewRow(cert)] else db.rows
  {
    hide SerialText, FindSerial, NameTaken;
  }

  /**
   A successful revocation leaves exactly one row with the serial, that row is revoked, a row
   was added only if the serial was absent, and every other row is as before.
   */
  lemma RevokeSucceeds(db: Db, cert: Cert, how: Revocation, field: Option<string>)
    requires Inv(db) && how != AsValid
    requires RevokeStep(db, cert, how, field).1 == 1
    ensures var last, serial := RevokeStep(db, cert, how, field).0.rows, SerialText(cert.serial);
            var i := FindSerial(last, serial);
            var name := if cert.subject == "" then serial else cert.subject;
            && i >= 0 && last[i].kind == "R" && last[i].name == name && Some(last[i].revocation) == field
            && (if FindSerial(db.rows, serial) == i then last[i].expiry == db.rows[i].expiry
                else last[i].expiry == cert.expiry && last[i].file == "unknown")
            && (forall k | 0 <= k < |last| && k != i :: Key(last[k].serial) != Key(serial))
            && |last| == |db.rows| + (if FindSerial(db.rows, serial) == -1 then 1 else 0)
            && forall k | 0 <= k < |db.rows| && k != i :: last[k] == db.rows[k]
  {
    hide SerialText, FindSerial, NameTaken, Inv;
    RevokeInv(db, cert, how, field);
    var last, serial := RevokeStep(db, cert, how, field).0.rows, SerialText(cert.serial);
    var found := FindSerial(db.rows, serial);
    OnlyRow(last, serial, if found == -1 then |db.rows| else found);
  }

  lemma OnlyRow(rows: seq<Row>, serial: string, i: nat)
    requires DistinctSerials(rows) && i < |rows| && Key(rows[i].serial) == Key(serial)
    ensures FindSerial(rows, serial) == i
    ensures forall k | 0 <= k < |rows| && k != i :: Key(rows[k].serial) != Key(serial)
  {
  }

  /** A refused revocation changes no row; it may have added the certificate as valid. */
  lemma RevokeFails(db: Db, cert: Cert, how: Revocation, field: Option<string>)
    requires RevokeStep(db, cert, how, field).1 != 1
    ensures var last := RevokeStep(db, cert, how, field).0;
            && RevokeStep(db, cert, how, field).1 == -1
            && (last == db || last.rows == db.rows + [NewRow(cert)])
            && (last != db ==> FindSerial(db.rows, SerialText(cert.serial)) == -1 && how != AsValid && field.None?)
  {
    var row := NewRow(cert);
    if FindSerial(db.rows, row.serial) == -1 && Insert(db, row).1 {
      var mid := Insert(db, row).0;
      assert mid.rows[|db.rows|] == row && !Revoked(row);
    }
  }

  // ----- expiring

  function DueRows(lib: Asn1, rows: seq<Row>, clock: int, n: nat): set<nat>
    requires n <= |rows|
  {
    set i: nat | i < n && Due(lib, rows[i], clock)
  }

  lemma {:induction false} DueCountIsSize(lib: Asn1, rows: seq<Row>, clock: int, n: nat)
    requires n <= |rows|
    ensures DueCount(lib, rows, clock, n) == |DueRows(lib, rows, clock, n)|
  {
    if n == 0 {
      assert DueRows(lib, rows, clock, n) == {};
    } else {
      DueCountIsSize(lib, rows, clock, n - 1);
      var s := DueRows(lib, rows, clock, n - 1);
      assert DueRows(lib, rows, clock, n) == if Due(lib, rows[n - 1], clock) then s + {n - 1} else s;
    }
  }

  /** The rows that marking changes are exactly the due ones. */
  lemma ExpireChanges(lib: Asn1, db: Db, clock: int)
    requires Horizon(lib, db.rows) == |db.rows|
    ensures var last := ExpireStep(lib, db, clock).0.rows;
            && (set i: nat | i < |db.rows| && last[i] != db.rows[i]) == DueRows(lib, db.rows, clock, |db.rows|)
            && forall r | r in last :: !Due(lib, r, clock) && !BadExpiry(lib, r)
  {
  }

  /**
   Marking expired rows: the result is the number of rows changed unless a valid row has an
   unreadable date, in which case it is -1; otherwise no valid row at or past its expiry is
   left, and marking again at the same time changes nothing.
   */
  lemma ExpireProperties(lib: Asn1, db: Db, clock: int)
    ensures var (last, n) := ExpireStep(lib, db, clock);
            && (n == -1 <==> exists r | r in db.rows :: BadExpiry(lib, r))
            && (n != -1 ==>
                  && n == |set i: nat | i < |db.rows| && last.rows[i] != db.rows[i]|
                  && (forall r | r in last.rows :: !Due(lib, r, clock))
                  && ExpireStep(lib, last, clock) == (last, 0))
  {
    var last := ExpireStep(lib, db, clock).0;
    var h := Horizon(lib, db.rows);
    if h == |db.rows| {
      DueCountIsSize(lib, db.rows, clock, h);
      ExpireChanges(lib, db, clock);
      NothingDue(lib, last.rows, clock, |last.rows|);
      assert ExpireStep(lib, last, clock).0.rows == last.rows;
    }
  }

  /**
   Row by row: what is marked is exactly what stands as V with an expiry at or before the clock, up
   to the first row that stands as V with an unreadable expiry, which alone makes the call fail.
   */
  lemma ExpireMeaning(lib: Asn1, db: Db, clock: int)
    ensures var (last, n) := ExpireStep(lib, db, clock);
            var rows := db.rows;
            && |last.rows| == |rows|
            && (forall i | 0 <= i < |rows| ::
                  last.rows[i] ==
                    if && (forall k | 0 <= k <= i && rows[k].kind != "" && rows[k].kind[0] == 'V' ::
                             lib.timeOf(rows[k].expiry).Some?)
                       && rows[i].kind != "" && rows[i].kind[0] == 'V' && lib.timeOf(rows[i].expiry).value <= clock
                    then rows[i].(kind := "E") else rows[i])
            && (n == -1 <==>
                  exists i | 0 <= i < |rows| ::
                    rows[i].kind != "" && rows[i].kind[0] == 'V' && lib.timeOf(rows[i].expiry).None?)
  {
    hide ExpireStep;
    forall i | 0 <= i < |db.rows|
      ensures |ExpireStep(lib, db, clock).0.rows| == |db.rows|
      ensures ExpireStep(lib, db, clock).0.rows[i] ==
                if && (forall k | 0 <= k <= i && db.rows[k].kind != "" && db.rows[k].kind[0] == 'V' ::
                         lib.timeOf(db.rows[k].expiry).Some?)
                   && db.rows[i].kind != "" && db.rows[i].kind[0] == 'V' && lib.timeOf(db.rows[i].expiry).value <= clock
                then db.rows[i].(kind := "E") else db.rows[i]
    {
      ExpireRowMeaning(lib, db, clock, i);
    }
    ExpireFails(lib, db, clock);
  }

  lemma ExpireRowMeaning(lib: Asn1, db: Db, clock: int, i: nat)
    requires i < |db.rows|
    ensures var last, rows := ExpireStep(lib, db, clock).0.rows, db.rows;
            && |last| == |rows|
            && last[i] ==
                 if && (forall k | 0 <= k <= i && rows[k].kind != "" && rows[k].kind[0] == 'V' ::
                          lib.timeOf(rows[k].expiry).Some?)
                    && rows[i].kind != "" && rows[i].kind[0] == 'V' && lib.timeOf(rows[i].expiry).value <= clock
                 then rows[i].(kind := "E") else rows[i]
  {
    var rows, h := db.rows, Horizon(lib, db.rows);
    if i < h {
      forall k | 0 <= k <= i && rows[k].kind != "" && rows[k].kind[0] == 'V' ensures lib.timeOf(rows[k].expiry).Some? {
        assert !BadExpiry(lib, rows[k]);
      }
    } else {
      assert BadExpiry(lib, rows[h]);
    }
  }

  lemma ExpireFails(lib: Asn1, db: Db, clock: int)
    ensures |ExpireStep(lib, db, clock).0.rows| == |db.rows|
    ensures ExpireStep(lib, db, clock).1 == -1 <==>
              exists i | 0 <= i < |db.rows| ::
                db.rows[i].kind != "" && db.rows[i].kind[0] == 'V' && lib.timeOf(db.rows[i].expiry).None?
  {
    var rows, h := db.rows, Horizon(lib, db.rows);
    if h < |rows| {
      assert BadExpiry(lib, rows[h]);
    } else {
      assert forall i | 0 <= i < h :: !BadExpiry(lib, rows[i]);
    }
  }

  lemma {:induction false} NothingDue(lib: Asn1, rows: seq<Row>, clock: int, n: nat)
    requires n <= |rows| && forall i | 0 <= i < n :: !Due(lib, rows[i], clock)
    ensures DueCount(lib, rows, clock, n) == 0
  {
    if n > 0 {
      NothingDue(lib, rows, clock, n - 1);
    }
  }

  // ----- empty subjects

  /** Subjects start with a slash; a row without subject is named by its serial. */
  predicate WellNamed(rows: seq<Row>) {
    forall r | r in rows :: r.name == r.serial || (r.name != "" && r.name[0] == '/')
  }

  /** A certificate with an empty subject is refused only because of its serial. */
  lemma EmptySubjectNeverClashes(db: Db, serial: int)
    requires WellNamed(db.rows) && FindSerial(db.rows, SerialText(serial)) == -1
    ensures !NameTaken(db, SerialText(serial))
  {
    SerialTextRoundTrip(serial);
    var s := SerialText(serial);
    forall i | i in db.named && i < |db.rows| ensures db.rows[i].name != s {
      assert db.rows[i] in db.rows;
    }
  }

  lemma WellNamedStep(lib: Asn1, db: Db, e: Event)
    requires Inv(db) && ValidEvent(e) && WellNamed(db.rows)
    requires !e.UpdateDb? ==> e.cert.subject == "" || e.cert.subject[0] == '/'
    ensures WellNamed(Step(lib, db, e).0.rows)
  {
    StepInv(lib, db, e);
    var last := Step(lib, db, e).0.rows;
    StepAdds(lib, db, e);
    forall r | r in last ensures r.name == r.serial || (r.name != "" && r.name[0] == '/') {
      var k :| 0 <= k < |last| && last[k] == r;
      if k < |db.rows| { assert RowEvolves(db.rows[k], r) && db.rows[k] in db.rows; }
    }
  }

  /** Over every run of certificates with empty or slash-led subjects, rows stay well named. */
  lemma {:induction false} RunWellNamed(lib: Asn1, db: Db, es: seq<Event>)
    requires Inv(db) && WellNamed(db.rows)
    requires forall e | e in es :: ValidEvent(e) && (!e.UpdateDb? ==> e.cert.subject == "" || e.cert.subject[0] == '/')
    ensures WellNamed(Run(lib, db, es).rows)
    decreases |es|
  {
    hide WellNamed, Step, Inv;
    if es != [] {
      StepInv(lib, db, es[0]);
      WellNamedStep(lib, db, es[0]);
      RunWellNamed(lib, Step(lib, db, es[0]).0, es[1..]);
    }
  }

  /** A step adds at most one row, and its serial, name and date are those of the certificate. */
  lemma StepAdds(lib: Asn1, db: Db, e: Event)
    requires ValidEvent(e)
    ensures var last := Step(lib, db, e).0.rows;
            && |last| <= |db.rows| + 1
            && (|last| > |db.rows| ==> !e.UpdateDb? && RowEvolves(NewRow(e.cert), last[|db.rows|]))
  {
    if e.Revoke? { RevokeAdds(db, e.cert, e.how, RevocationField(lib, e.how, e.now)); }
  }

  /** A revocation or import adds a row exactly when neither index has the certificate's key. */
  lemma RevokeAdds(db: Db, cert: Cert, how: Revocation, field: Option<string>)
    ensures var last := RevokeStep(db, cert, how, field).0.rows;
            && |last| == |db.rows| + (if MayAdd(db, cert) then 1 else 0)
            && (MayAdd(db, cert) ==> RowEvolves(NewRow(cert), last[|db.rows|]))
  {
    hide FindSerial, NameTaken, SerialText;
  }

  // ----- loading again

  /**
   The step will leave no date or revocation column that the next load would refuse: a
   certificate that it can add has a readable date, and a revocation that it can record is
   made between 1950 and 2049.
   */
  predicate CleanStep(lib: Asn1, db: Db, e: Event) {
    match e
    case Issue(cert, answer) => answer == Sign && MayAdd(db, cert) ==> lib.timeOf(cert.expiry).Some?
    case Revoke(cert, how, now) =>
      var row := NewRow(cert);
      var i := FindSerial(db.rows, row.serial);
      var recorded := how != AsValid && ReasonWords(lib, how).Some?;
      if i == -1 then MayAdd(db, cert) ==> lib.timeOf(cert.expiry).Some? && (recorded ==> UtcYear(now.year))
      else recorded && db.rows[i].name == row.name && !Revoked(db.rows[i]) ==> UtcYear(now.year)
    case UpdateDb(_) => true
  }

  predicate CleanRun(lib: Asn1, db: Db, es: seq<Event>)
    requires forall e | e in es :: ValidEvent(e)
    decreases |es|
  {
    es == [] || (CleanStep(lib, db, es[0]) && CleanRun(lib, Step(lib, db, es[0]).0, es[1..]))
  }

  /** Readable dates and revocations between 1950 and 2049 keep every run clean, whatever the database. */
  lemma {:induction false} CleanEvents(lib: Asn1, db: Db, es: seq<Event>)
    requires forall e | e in es :: ValidEvent(e)
    requires forall e | e in es && !e.UpdateDb? :: lib.timeOf(e.cert.expiry).Some?
    requires forall e | e in es && e.Revoke? && e.how != AsValid :: UtcYear(e.now.year)
    ensures CleanRun(lib, db, es)
    decreases |es|
  {
    hide Step;
    if es != [] { CleanEvents(lib, Step(lib, db, es[0]).0, es[1..]); }
  }

  /** A row that no later step can repair. */
  predicate Dirty(lib: Asn1, rows: seq<Row>) {
    exists r | r in rows :: lib.timeOf(r.expiry).None? || (Revoked(r) && Unpacked(lib, r.revocation).None?)
  }

  lemma DirtyStays(lib: Asn1, a: seq<Row>, b: seq<Row>)
    requires Dirty(lib, a) && Evolves(a, b)
    ensures Dirty(lib, b)
  {
    var r :| r in a && (lib.timeOf(r.expiry).None? || (Revoked(r) && Unpacked(lib, r.revocation).None?));
    var i :| 0 <= i < |a| && a[i] == r;
    assert RowEvolves(a[i], b[i]) && b[i] in b;
  }

  lemma DirtyNotOk(lib: Asn1, rows: seq<Row>)
    requires Dirty(lib, rows)
    ensures !LoadOk(lib, rows)
  {
    var r :| r in rows && (lib.timeOf(r.expiry).None? || (Revoked(r) && Unpacked(lib, r.revocation).None?));
    var i :| 0 <= i < |rows| && rows[i] == r;
    assert !RowOk(lib, rows[i]);
  }

  lemma NewRowOk(lib: Asn1, cert: Cert)
    ensures RowOk(lib, NewRow(cert)) <==> lib.timeOf(cert.expiry).Some?
  {
    SerialTextRoundTrip(cert.serial);
  }

  lemma RevokedRowOk(lib: Asn1, r: Row, how: Revocation, now: Tm)
    requires ValidTm(now) && RowOk(lib, r) && RevocationField(lib, how, now).Some?
    ensures RowOk(lib, r.(kind := "R", revocation := RevocationField(lib, how, now).value)) <==> UtcYear(now.year)
  {
    RevocationRoundTrip(lib, how, now);
  }

  lemma RevokePresentClean(lib: Asn1, db: Db, i: nat, row: Row, how: Revocation, now: Tm)
    requires i < |db.rows| && ValidTm(now) && LoadOk(lib, db.rows)
    ensures var (last, code) := RevokePresent(db, i, row, how, RevocationField(lib, how, now));
            if code == 1 && !UtcYear(now.year) then Dirty(lib, last.rows) else LoadOk(lib, last.rows)
  {
    var (last, code) := RevokePresent(db, i, row, how, RevocationField(lib, how, now));
    if code == 1 {
      RevokedRowOk(lib, db.rows[i], how, now);
      assert last.rows[i] in last.rows;
    }
  }

  lemma RevokeClean(lib: Asn1, db: Db, cert: Cert, how: Revocation, now: Tm)
    requires Inv(db) && ValidTm(now) && LoadOk(lib, db.rows)
    ensures var e := Revoke(cert, how, now);
            var last := Step(lib, db, e).0.rows;
            if CleanStep(lib, db, e) then LoadOk(lib, last) else Dirty(lib, last)
  {
    hide SerialText, NameTaken, SerialSyntax;
    var row := NewRow(cert);
    var i := FindSerial(db.rows, row.serial);
    var last := RevokeStep(db, cert, how, RevocationField(lib, how, now)).0.rows;
    StepAdds(lib, db, Revoke(cert, how, now));
    NewRowOk(lib, cert);
    if i != -1 {
      RevokePresentClean(lib, db, i, row, how, now);
    } else if |last| > |db.rows| && lib.timeOf(cert.expiry).None? {
      assert last[|db.rows|] in last;
    } else {
      var mid := Insert(db, row).0;
      if Insert(db, row).1 && how != AsValid {
        RevokePresentClean(lib, mid, |db.rows|, row, how, now);
      }
    }
  }

  lemma IssueClean(lib: Asn1, db: Db, cert: Cert, answer: Answer)
    requires LoadOk(lib, db.rows)
    ensures var last := IssueStep(db, cert, answer).0.rows;
            if CleanStep(lib, db, Issue(cert, answer)) then LoadOk(lib, last) else Dirty(lib, last)
  {
    hide SerialText, NameTaken, FindSerial, SerialSyntax, RowOk;
    NewRowOk(lib, cert);
    var last := IssueStep(db, cert, answer).0.rows;
    if |last| > |db.rows| { assert last[|db.rows|] == NewRow(cert) && last[|db.rows|] in last; }
  }

  lemma ExpireClean(lib: Asn1, db: Db, clock: int)
    requires LoadOk(lib, db.rows)
    ensures LoadOk(lib, ExpireStep(lib, db, clock).0.rows)
  {
    hide Unpacked, SerialSyntax, Horizon;
    var last := ExpireStep(lib, db, clock).0.rows;
    forall i | 0 <= i < |last| ensures RowOk(lib, last[i]) {
      assert RowOk(lib, db.rows[i]);
    }
  }

  lemma StepClean(lib: Asn1, db: Db, e: Event)
    requires Inv(db) && ValidEvent(e) && LoadOk(lib, db.rows)
    ensures var last := Step(lib, db, e).0.rows;
            if CleanStep(lib, db, e) then LoadOk(lib, last) else Dirty(lib, last)
  {
    hide IssueStep, RevokeStep, ExpireStep, LoadOk, Dirty, Inv;
    match e
    case Issue(cert, answer) => IssueClean(lib, db, cert, answer);
    case Revoke(cert, how, now) => RevokeClean(lib, db, cert, how, now);
    case UpdateDb(clock) => ExpireClean(lib, db, clock);
  }

  /**
   From a database that passes the load checks, the database after a run passes them again
   exactly when no certificate with an unreadable date was added and no revocation was
   recorded outside the years 1950 to 2049.
   */
  lemma {:induction false} RunLoads(lib: Asn1, db: Db, es: seq<Event>)
    requires Inv(db) && LoadOk(lib, db.rows) && forall e | e in es :: ValidEvent(e)
    ensures LoadOk(lib, Run(lib, db, es).rows) <==> CleanRun(lib, db, es)
    decreases |es|
  {
    if es != [] {
      var next := Step(lib, db, es[0]).0;
      StepInv(lib, db, es[0]);
      StepClean(lib, db, es[0]);
      if CleanStep(lib, db, es[0]) {
        RunLoads(lib, next, es[1..]);
      } else {
        RunInv(lib, next, es[1..]);
        DirtyStays(lib, next.rows, Run(lib, next, es[1..]).rows);
        DirtyNotOk(lib, Run(lib, next, es[1..]).rows);
      }
    }
  }

  // ----- saving and loading the file

  /** Text that keeps its column apart from the next one. */
  predicate Plain(s: string) {
    '\n' !in s && !EndsInBackslash(s)
  }

  /** The texts an event brings into the database. */
  predicate PlainEvent(e: Event) {
    && (!e.UpdateDb? ==> Plain(e.cert.expiry) && '\n' !in e.cert.subject)
    && (e.Revoke? && !e.how.AsValid? && !e.how.NoInfo? ==> Plain(e.how.arg))
  }

  predicate FileRow(r: Row) {
    OneLine(r) && FileSafe(r)
  }

  lemma FileRowFields(r: Row)
    ensures FileRow(r) <==>
              && Plain(r.kind) && !IsComment(r.kind) && Plain(r.expiry) && Plain(r.revocation)
              && Plain(r.serial) && Plain(r.file) && '\n' !in r.name
  {
    var fs := Fields(r);
    assert OneLine(r) <==>
      ('\n' !in fs[0] && '\n' !in fs[1] && '\n' !in fs[2] && '\n' !in fs[3] && '\n' !in fs[4] && '\n' !in fs[5]);
    assert Separable(fs) <==>
      (!EndsInBackslash(fs[0]) && !EndsInBackslash(fs[1]) && !EndsInBackslash(fs[2])
       && !EndsInBackslash(fs[3]) && !EndsInBackslash(fs[4]));
  }

  lemma NewRowPlain(cert: Cert)
    requires Plain(cert.expiry) && '\n' !in cert.subject
    ensures FileRow(NewRow(cert))
  {
    var s := SerialText(cert.serial);
    SerialTextRoundTrip(cert.serial);
    assert forall c | c in s :: c == '-' || IsHex(c);
    FileRowFields(NewRow(cert));
  }

  lemma FieldPlain(lib: Asn1, how: Revocation, now: Tm)
    requires ValidTm(now) && RevocationField(lib, how, now).Some?
    requires !how.AsValid? && !how.NoInfo? ==> Plain(how.arg)
    ensures Plain(RevocationField(lib, how, now).value)
  {
    hide GmText, FieldText, Plain;
    var words := ReasonWords(lib, how).value;
    TimePlain(now);
    if how.AsValid? || how.NoInfo? {
      FieldTextPlain(GmText(now), "", None);
    } else {
      NamePlain(ReasonPosition(how));
      assert words.0 == CRL_REASONS[ReasonPosition(how)];
      FieldTextPlain(GmText(now), words.0, words.1);
    }
  }

  lemma TimePlain(now: Tm)
    requires ValidTm(now)
    ensures Plain(GmText(now)) && GmText(now) != ""
  {
    var time := GmText(now);
    assert time[|time| - 1] == 'Z' && forall i | 0 <= i < |time| - 1 :: IsDigit(time[i]);
  }

  lemma FieldTextPlain(time: string, reason: string, other: Option<string>)
    requires Plain(time) && time != "" && (reason == "" || Plain(reason))
    requires other.Some? ==> Plain(other.value)
    ensures Plain(FieldText(time, reason, other))
  {
    var head := time + if reason == "" then "" else "," + reason;
    assert Plain(head);
    if other.Some? { assert Plain(head + ("," + other.value)); }
  }

  lemma NamePlain(k: nat)
    requires k < |CRL_REASONS|
    ensures Plain(CRL_REASONS[k]) && CRL_REASONS[k] != ""
  {
  }

  lemma RowPlain(before: Row, after: Row)
    requires FileRow(before) && RowEvolves(before, after)
    requires Plain(after.revocation) || after.revocation == before.revocation
    ensures FileRow(after)
  {
    FileRowFields(before);
    FileRowFields(after);
  }

  lemma RevokeColumn(db: Db, cert: Cert, how: Revocation, field: Option<string>, i: nat)
    requires i < |RevokeStep(db, cert, how, field).0.rows|
    ensures var r := RevokeStep(db, cert, how, field).0.rows[i];
            || (i < |db.rows| && r == db.rows[i])
            || r == NewRow(cert)
            || Some(r.revocation) == field
  {
  }

  /** A step either keeps a revocation column or writes the one of the revocation. */
  lemma StepColumn(lib: Asn1, db: Db, e: Event, i: nat)
    requires ValidEvent(e) && i < |Step(lib, db, e).0.rows|
    ensures var r := Step(lib, db, e).0.rows[i];
            || (i < |db.rows| && r.revocation == db.rows[i].revocation)
            || r.revocation == ""
            || (e.Revoke? && Some(r.revocation) == RevocationField(lib, e.how, e.now))
  {
    match e
    case Issue(_, _) =>
    case Revoke(cert, how, now) => RevokeColumn(db, cert, how, RevocationField(lib, how, now), i);
    case UpdateDb(_) =>
  }

  lemma StepPlain(lib: Asn1, db: Db, e: Event)
    requires Inv(db) && ValidEvent(e) && PlainEvent(e) && forall r | r in db.rows :: FileRow(r)
    ensures forall r | r in Step(lib, db, e).0.rows :: FileRow(r)
  {
    var last := Step(lib, db, e).0.rows;
    StepInv(lib, db, e);
    StepAdds(lib, db, e);
    forall i | 0 <= i < |last| ensures FileRow(last[i]) {
      if e.Revoke? && RevocationField(lib, e.how, e.now).Some? { FieldPlain(lib, e.how, e.now); }
      StepColumn(lib, db, e, i);
      if i < |db.rows| {
        assert FileRow(db.rows[i]);
        RowPlain(db.rows[i], last[i]);
      } else {
        NewRowPlain(e.cert);
        RowPlain(NewRow(e.cert), last[i]);
      }
    }
  }

  lemma {:induction false} RunPlain(lib: Asn1, db: Db, es: seq<Event>)
    requires Inv(db) && (forall e | e in es :: ValidEvent(e) && PlainEvent(e)) && forall r | r in db.rows :: FileRow(r)
    ensures forall r | r in Run(lib, db, es).rows :: FileRow(r)
    decreases |es|
  {
    if es != [] {
      StepInv(lib, db, es[0]);
      StepPlain(lib, db, es[0]);
      RunPlain(lib, Step(lib, db, es[0]).0, es[1..]);
    }
  }

  /**
   A database that was loaded from a file, taken through any clean run and saved, is read
   back row for row, passes every load check, and can be indexed again.
   */
  lemma SavedRunReloads(lib: Asn1, rows: seq<Row>, unique: bool, es: seq<Event>)
    requires Indexed(rows, unique).Some? && LoadOk(lib, rows) && forall r | r in rows :: FileRow(r)
    requires forall e | e in es :: ValidEvent(e) && PlainEvent(e)
    requires CleanRun(lib, Indexed(rows, unique).value, es)
    ensures var last := Run(lib, Indexed(rows, unique).value, es).rows;
            && Decode(Encode(last)) == Some(last)
            && LoadOk(lib, last)
            && Indexed(last, unique).Some?
  {
    var db := Indexed(rows, unique).value;
    IndexedInv(rows, unique);
    RunSafety(lib, rows, unique, es);
    RunLoads(lib, db, es);
    RunPlain(lib, db, es);
    FileRoundTrip(Run(lib, db, es).rows);
  }
}
