/** One certificate request through do_body(): policy, subject, clash checks and insertion. */
module CaRequest {
  import opened CaState
  import opened CaDatabase
  import opened CaPolicy

  /** The request and the settings it is judged by. */
  datatype Setting = Setting(
    nidOf: string -> int, policy: seq<Item>, caSubject: Name, selfsign: bool, preserve: bool, emailDn: bool,
    oneLine: Name -> string)  // X509_NAME_oneline()

  predicate Accepted(s: Setting, name: Name) {
    forall item | item in s.policy :: ItemOk(s.nidOf, item, name, if s.selfsign then name else s.caSubject)
  }

  function Subject(s: Setting, name: Name): Name {
    var kept := if s.preserve then name else Grouped(s.nidOf, s.policy, name);
    if s.emailDn then kept else Without(kept, EMAIL)
  }

  /**
   A request is certified only if the policy accepts it, and then as the issue step of the
   database under the subject the policy leaves; a refused one changes nothing.
   */
  method DoBody(db: CaDb, s: Setting, name: Name, serial: int, expiry: string, answer: Answer) returns (code: int)
    requires db.Valid()
    modifies db
    ensures db.Valid()
    ensures !Accepted(s, name) ==> code == -1 && db.Abs() == old(db.Abs())
    ensures Accepted(s, name) ==>
              (db.Abs(), code) == IssueStep(old(db.Abs()), Cert(s.oneLine(Subject(s, name)), serial, expiry), answer)
  {
    hide Inv, IsSerialIndex, IsNameIndex, IssueStep, ItemOk, Grouped, Without;
    var subject := CertifiedSubject(s.nidOf, s.policy, name, s.caSubject, s.selfsign, s.preserve, s.emailDn);
    if subject.None? {
      return -1;
    }
    code := db.Issue(Cert(s.oneLine(subject.value), serial, expiry), answer);
  }
}
