/** The policy check of do_body(): which requests are certified, and under which subject. */
module CaPolicy {
  import opened Common

  /** A relative name: its object, and its value as ASN1_STRING_cmp() compares it. */
  datatype Entry = Entry(obj: int, data: string)

  type Name = seq<Entry>

  /** One line of the policy section. */
  datatype Item = Item(field: string, rule: string)

  /** NID_undef, and the object of an e-mail address. */
  const UNDEF := 0
  const EMAIL := 48

  /** X509_NAME_get_index_by_OBJ(): the first entry for obj after position last, or -1. */
  method NextIndex(name: Name, obj: int, last: int) returns (j: int)
    requires -1 <= last
    ensures j == -1 || (last < j < |name| && name[j].obj == obj)
    ensures forall k | last < k < |name| && (j == -1 || k < j) :: name[k].obj != obj
  {
    j := last + 1;
    while j < |name|
      invariant last < j
      invariant forall k | last < k < j && k < |name| :: name[k].obj != obj
    {
      if name[j].obj == obj {
        return;
      }
      j := j + 1;
    }
    j := -1;
  }

  /** The entries for an object, in order. */
  function Occurrences(name: Name, obj: int): Name {
    if name == [] then []
    else Occurrences(name[..|name| - 1], obj) + if name[|name| - 1].obj == obj then [name[|name| - 1]] else []
  }

  /** The entries for all other objects, in order. */
  function Without(name: Name, obj: int): Name {
    if name == [] then []
    else Without(name[..|name| - 1], obj) + if name[|name| - 1].obj == obj then [] else [name[|name| - 1]]
  }

  /** What the policy documentation asks of one field. */
  predicate ItemOk(nidOf: string -> int, item: Item, name: Name, ca: Name) {
    var obj := nidOf(item.field);
    var given := Occurrences(name, obj);
    && obj != UNDEF
    && (item.rule == "optional"
        || (item.rule == "supplied" && given != [])
        || (item.rule == "match" && given != [] && forall e | e in given :: e in ca))
  }

  /** The request's entries, grouped by policy line. */
  function Grouped(nidOf: string -> int, policy: seq<Item>, name: Name): Name {
    if policy == [] then []
    else Grouped(nidOf, policy[..|policy| - 1], name) + Occurrences(name, nidOf(policy[|policy| - 1].field))
  }

  // ----- the loops

  /** The search for an equal entry of the CA; -1 when there is none. */
  method FindInCa(ca: Name, tne: Entry) returns (j: int)
    ensures j == -1 <==> tne !in ca
    ensures j != -1 ==> 0 <= j < |ca| && ca[j] == tne
  {
    var last2 := -1;
    while true
      invariant -1 <= last2 < |ca|
      invariant forall k | 0 <= k <= last2 :: ca[k] != tne
      decreases |ca| - last2
    {
      j := NextIndex(ca, tne.obj, last2);
      if j < 0 || ca[j].data == tne.data {
        return;
      }
      last2 := j;
    }
  }

  /** One policy line: collects the entries it lets through, or None when it refuses. */
  method ApplyItem(nidOf: string -> int, item: Item, name: Name, ca: Name) returns (r: Option<Name>)
    ensures r.Some? <==> ItemOk(nidOf, item, name, ca)
    ensures r.Some? ==> r.value == Occurrences(name, nidOf(item.field))
  {
    var obj := nidOf(item.field);
    if obj == UNDEF {
      return None;
    }
    var subject: Name := [];
    var last := -1;
    while true
      invariant -1 <= last < |name|
      invariant subject == Occurrences(name[..last + 1], obj)
      invariant last != -1 ==> subject != [] && item.rule in {"optional", "supplied", "match"}
      invariant item.rule == "match" ==> forall e | e in subject :: e in ca
      decreases |name| - last
    {
      var j := NextIndex(name, obj, last);
      if j < 0 {
        NoMore(name, obj, last + 1, |name|);
        assert name[..|name|] == name;
        if last != -1 {
          break;
        }
        return if item.rule == "optional" then Some([]) else None;
      }
      NoMore(name, obj, last + 1, j);
      OccurrencesStep(name, obj, j);
      var tne := name[j];
      last := j;
      if item.rule == "optional" || item.rule == "supplied" {
        subject := subject + [tne];
      } else if item.rule == "match" {
        var j2 := FindInCa(ca, tne);
        if j2 < 0 {
          OccurrencesIn(name, obj, j);
          return None;
        }
        subject := subject + [ca[j2]];
      } else {
        return None;
      }
    }
    r := Some(subject);
  }

  /** The loop over the policy section. */
  method ApplyPolicy(nidOf: string -> int, policy: seq<Item>, name: Name, ca: Name) returns (r: Option<Name>)
    ensures r.Some? <==> forall item | item in policy :: ItemOk(nidOf, item, name, ca)
    ensures r.Some? ==> r.value == Grouped(nidOf, policy, name)
  {
    var subject: Name := [];
    for i := 0 to |policy|
      invariant forall item | item in policy[..i] :: ItemOk(nidOf, item, name, ca)
      invariant subject == Grouped(nidOf, policy[..i], name)
    {
      var part := ApplyItem(nidOf, policy[i], name, ca);
      assert policy[..i + 1] == policy[..i] + [policy[i]];
      if part.None? {
        return None;
      }
      subject := subject + part.value;
    }
    assert policy[..|policy|] == policy;
    r := Some(subject);
  }

  /** Deleting every e-mail entry while stepping back over each deletion. */
  method DropEmail(subject: Name) returns (dn: Name)
    ensures dn == Without(subject, EMAIL)
  {
    dn := subject;
    var i := -1;
    while true
      invariant -1 <= i < |dn|
      invariant Without(dn, EMAIL) == Without(subject, EMAIL)
      invariant forall k | 0 <= k <= i :: dn[k].obj != EMAIL
      decreases |dn|
    {
      i := NextIndex(dn, EMAIL, i);
      if i < 0 {
        WithoutNone(dn, EMAIL);
        break;
      }
      WithoutDelete(dn, EMAIL, i);
      dn, i := dn[..i] + dn[i + 1..], i - 1;
    }
  }

  /** The subject put into the certificate, from the policy check to the e-mail filter. */
  method CertifiedSubject(nidOf: string -> int, policy: seq<Item>, name: Name, caSubject: Name,
                          selfsign: bool, preserve: bool, emailDn: bool) returns (r: Option<Name>)
    ensures r.Some? <==>
              forall item | item in policy :: ItemOk(nidOf, item, name, if selfsign then name else caSubject)
    ensures r.Some? ==>
              var kept := if preserve then name else Grouped(nidOf, policy, name);
              r.value == if emailDn then kept else Without(kept, EMAIL)
  {
    r := ApplyPolicy(nidOf, policy, name, if selfsign then name else caSubject);
    if r.Some? {
      if preserve {
        r := Some(name);
      }
      if !emailDn {
        var dn := DropEmail(r.value);
        r := Some(dn);
      }
    }
  }

  // ----- lemmas

  lemma OccurrencesStep(name: Name, obj: int, j: nat)
    requires j < |name|
    ensures Occurrences(name[..j + 1], obj) ==
              Occurrences(name[..j], obj) + if name[j].obj == obj then [name[j]] else []
  {
    assert name[..j + 1][..j] == name[..j];
  }

  lemma {:induction false} NoMore(name: Name, obj: int, i: nat, j: nat)
    requires i <= j <= |name| && forall k | i <= k < j :: name[k].obj != obj
    ensures Occurrences(name[..j], obj) == Occurrences(name[..i], obj)
  {
    if i < j {
      NoMore(name, obj, i, j - 1);
      OccurrencesStep(name, obj, j - 1);
    }
  }

  lemma {:induction false} OccurrencesIn(name: Name, obj: int, j: nat)
    requires j < |name| && name[j].obj == obj
    ensures name[j] in Occurrences(name, obj)
  {
    if j < |name| - 1 {
      OccurrencesIn(name[..|name| - 1], obj, j);
    }
  }

  lemma {:induction false} WithoutConcat(a: Name, b: Name, obj: int)
    ensures Without(a + b, obj) == Without(a, obj) + Without(b, obj)
  {
    if b == [] {
      assert a + b == a;
    } else {
      WithoutConcat(a, b[..|b| - 1], obj);
      assert (a + b)[..|a + b| - 1] == a + b[..|b| - 1];
    }
  }

  lemma WithoutDelete(name: Name, obj: int, i: nat)
    requires i < |name| && name[i].obj == obj
    ensures Without(name[..i] + name[i + 1..], obj) == Without(name, obj)
  {
    hide Without;
    var a, b := name[..i], name[i + 1..];
    assert name == a + [name[i]] + b;
    WithoutConcat(a + [name[i]], b, obj);
    WithoutConcat(a, [name[i]], obj);
    WithoutConcat(a, b, obj);
    SingleEntry(name[i], obj);
    assert Without(a, obj) + [] == Without(a, obj);
  }

  lemma {:induction false} WithoutNone(name: Name, obj: int)
    requires forall e | e in name :: e.obj != obj
    ensures Without(name, obj) == name
  {
    if name != [] {
      WithoutNone(name[..|name| - 1], obj);
    }
  }

  lemma {:induction false} OccurrencesFrom(name: Name, obj: int)
    ensures forall e | e in Occurrences(name, obj) :: e in name && e.obj == obj
  {
    if name != [] {
      OccurrencesFrom(name[..|name| - 1], obj);
    }
  }

  /** What each rule asks, entry by entry. */
  lemma ItemMeaning(nidOf: string -> int, item: Item, name: Name, ca: Name)
    ensures var obj := nidOf(item.field);
            var given := exists j | 0 <= j < |name| :: name[j].obj == obj;
            ItemOk(nidOf, item, name, ca) <==>
              && obj != UNDEF && item.rule in {"optional", "supplied", "match"}
              && (item.rule != "optional" ==> given)
              && (item.rule == "match" ==> forall j | 0 <= j < |name| && name[j].obj == obj :: name[j] in ca)
  {
    var obj := nidOf(item.field);
    OccurrencesFrom(name, obj);
    forall j | 0 <= j < |name| && name[j].obj == obj ensures name[j] in Occurrences(name, obj) {
      OccurrencesIn(name, obj, j);
    }
    if Occurrences(name, obj) != [] {
      assert Occurrences(name, obj)[0] in Occurrences(name, obj);
    }
    assert forall e | e in Occurrences(name, obj) :: exists j | 0 <= j < |name| :: name[j] == e;
  }

  /** The entries of a name for an object, and of a policy, come in order: part after part. */
  lemma {:induction false} OccurrencesConcat(a: Name, b: Name, obj: int)
    ensures Occurrences(a + b, obj) == Occurrences(a, obj) + Occurrences(b, obj)
  {
    if b == [] {
      assert a + b == a;
    } else {
      OccurrencesConcat(a, b[..|b| - 1], obj);
      assert (a + b)[..|a + b| - 1] == a + b[..|b| - 1];
    }
  }

  lemma {:induction false} GroupedConcat(nidOf: string -> int, p: seq<Item>, q: seq<Item>, name: Name)
    ensures Grouped(nidOf, p + q, name) == Grouped(nidOf, p, name) + Grouped(nidOf, q, name)
  {
    if q == [] {
      assert p + q == p;
    } else {
      GroupedConcat(nidOf, p, q[..|q| - 1], name);
      assert (p + q)[..|p + q| - 1] == p + q[..|q| - 1];
    }
  }

  lemma SingleEntry(e: Entry, obj: int)
    ensures Occurrences([e], obj) == (if e.obj == obj then [e] else [])
    ensures Without([e], obj) == if e.obj == obj then [] else [e]
  {
    assert [e][..0] == [];
  }

  lemma SingleItem(nidOf: string -> int, item: Item, name: Name)
    ensures Grouped(nidOf, [item], name) == Occurrences(name, nidOf(item.field))
  {
    assert [item][..0] == [];
  }

  /** When a request is self-signed, "match" asks no more than "supplied". */
  lemma SelfSignedMatch(nidOf: string -> int, field: string, name: Name)
    ensures ItemOk(nidOf, Item(field, "match"), name, name) <==> ItemOk(nidOf, Item(field, "supplied"), name, name)
  {
    OccurrencesFrom(name, nidOf(field));
  }

  lemma PartitionGrows(w: Name, o: Name, t: Name, e: Entry, kept: bool)
    requires multiset(w) + multiset(o) == multiset(t)
    ensures multiset(w + if kept then [e] else []) + multiset(o + if kept then [] else [e]) == multiset(t + [e])
  {
    if kept { assert o + [] == o; } else { assert w + [] == w; }
  }

  lemma {:induction false} WithoutHasNone(name: Name, obj: int)
    ensures forall e | e in Without(name, obj) :: e.obj != obj
  {
    if name != [] { WithoutHasNone(name[..|name| - 1], obj); }
  }

  lemma NothingLeft(obj: int)
    ensures Without([], obj) == [] && Occurrences([], obj) == []
  {
  }

  lemma {:induction false} SameEntries(name: Name, obj: int)
    ensures multiset(Without(name, obj)) + multiset(Occurrences(name, obj)) == multiset(name)
  {
    hide Without, Occurrences;
    if name == [] {
      NothingLeft(obj);
    } else {
      var t, e := name[..|name| - 1], name[|name| - 1];
      SameEntries(t, obj);
      SingleEntry(e, obj);
      WithoutConcat(t, [e], obj);
      OccurrencesConcat(t, [e], obj);
      assert name == t + [e];
      PartitionGrows(Without(t, obj), Occurrences(t, obj), t, e, e.obj != obj);
    }
  }

  /** Filtering splits a name: nothing but the filtered entries is dropped, and none is kept. */
  lemma WithoutPartition(name: Name, obj: int)
    ensures forall e | e in Without(name, obj) :: e.obj != obj
    ensures multiset(Without(name, obj)) + multiset(Occurrences(name, obj)) == multiset(name)
  {
    hide Without, Occurrences;
    WithoutHasNone(name, obj);
    SameEntries(name, obj);
  }
}
