/**
 The certificate database as ca keeps it in memory: rows that are changed in place, and two
 hash indices that were built earlier. The indices answer what CaState asks of the rows.
 */
module CaDatabase {
  import opened Common
  import opened AsnTime
  import opened RevocationInfo
  import opened TextDb
  import opened SerialHex
  import opened CaState

  /** Every row is found under its own key, and nothing else is. */
  ghost predicate IsSerialIndex(rows: seq<Row>, m: map<string, nat>) {
    && (forall i | 0 <= i < |rows| :: Key(rows[i].serial) in m && m[Key(rows[i].serial)] == i)
    && (forall k | k in m :: m[k] < |rows| && Key(rows[m[k]].serial) == k)
  }

  /** Every entry leads to a row of that name. */
  ghost predicate IsNameIndex(rows: seq<Row>, m: map<string, nat>) {
    forall n | n in m :: m[n] < |rows| && rows[m[n]].name == n
  }

  // ----- the checks on loading

  /** The syntax check of a serial: an optional minus sign, then an even number of hex digits, at least two. */
  method CheckSerial(serial: string) returns (ok: bool)
    ensures ok <==> SerialSyntax(serial)
    ensures ok <==>
              var p := if serial != "" && serial[0] == '-' then serial[1..] else serial;
              && |p| % 2 == 0 && |p| >= 2
              && forall i | 0 <= i < |p| :: '0' <= p[i] <= '9' || 'a' <= p[i] <= 'f' || 'A' <= p[i] <= 'F'
  {
    var p, j := 0, |serial|;
    if serial != "" && serial[0] == '-' {
      p, j := 1, j - 1;
    }
    ghost var rest := Unsigned(serial);
    assert rest == serial[p..];
    if j % 2 == 1 || j < 2 {
      return false;
    }
    ghost var start := p;
    while p < |serial|
      invariant start <= p <= |serial|
      invariant forall i | start <= i < p :: IsHex(serial[i])
    {
      if !IsHex(serial[p]) {
        assert rest[p - start] == serial[p];
        return false;
      }
      p := p + 1;
    }
    return true;
  }

  /** What is asked of a row: a readable revocation column exactly if it is revoked, else an empty one. */
  lemma RowChecks(lib: Asn1, r: Row)
    ensures RowOk(lib, r) <==>
              && (if r.kind != "" && r.kind[0] == 'R' then Unpacked(lib, r.revocation).Some? else r.revocation == "")
              && lib.timeOf(r.expiry).Some? && SerialSyntax(r.serial)
  {
    hide Unpacked, SerialSyntax;
  }

  method CheckRow(lib: Asn1, r: Row) returns (ok: bool)
    requires '\0' !in r.revocation
    ensures ok <==> RowOk(lib, r)
  {
    hide Unpacked, SerialSyntax;
    var revoked := r.kind != "" && r.kind[0] == 'R';
    if !revoked && r.revocation != "" {
      return false;
    }
    if revoked {
      var info := UnpackInPlace(lib, r.revocation);
      if info.None? {
        return false;
      }
    }
    if lib.timeOf(r.expiry).None? {
      return false;
    }
    ok := CheckSerial(r.serial);
  }

  /** The loop of ca_main() over the rows: the first row that is refused, or -1. */
  method CheckRows(lib: Asn1, rows: seq<Row>) returns (bad: int)
    requires forall r | r in rows :: '\0' !in r.revocation
    ensures bad == -1 <==> LoadOk(lib, rows)
    ensures bad != -1 ==> 0 <= bad < |rows| && !RowOk(lib, rows[bad]) && LoadOk(lib, rows[..bad])
  {
    hide RowOk;
    for i := 0 to |rows|
      invariant forall k | 0 <= k < i :: RowOk(lib, rows[k])
    {
      assert rows[i] in rows;
      var ok := CheckRow(lib, rows[i]);
      if !ok {
        return i;
      }
    }
    return -1;
  }

  lemma SerialIndexGrows(rows: seq<Row>, m: map<string, nat>, row: Row)
    requires IsSerialIndex(rows, m) && Key(row.serial) !in m
    ensures IsSerialIndex(rows + [row], m[Key(row.serial) := |rows|])
  {
  }

  lemma NameIndexGrows(rows: seq<Row>, m: map<string, nat>, row: Row)
    requires IsNameIndex(rows, m)
    ensures IsNameIndex(rows + [row], m) && IsNameIndex(rows + [row], m[row.name := |rows|])
    ensures row.name !in m ==> m[row.name := |rows|].Values == m.Values + {|rows|}
  {
    var m' := m[row.name := |rows|];
    assert m'[row.name] == |rows|;
    assert row.name !in m ==> forall x | x in m :: m'[x] == m[x];
  }

  /** The indices stay good while rows change in place. */
  lemma IndicesStay(a: seq<Row>, b: seq<Row>, serials: map<string, nat>, names: map<string, nat>)
    requires IsSerialIndex(a, serials) && IsNameIndex(a, names)
    requires |a| == |b| && Evolves(a, b)
    ensures IsSerialIndex(b, serials) && IsNameIndex(b, names)
  {
    assert forall i | 0 <= i < |a| :: RowEvolves(a[i], b[i]);
  }

  /** TXT_DB_create_index() on the serial column. */
  method BuildSerialIndex(rows: seq<Row>) returns (r: Option<map<string, nat>>)
    ensures r.Some? <==> DistinctSerials(rows)
    ensures r.Some? ==> IsSerialIndex(rows, r.value)
  {
    var m: map<string, nat> := map[];
    for i := 0 to |rows|
      invariant IsSerialIndex(rows[..i], m)
    {
      var k := Key(rows[i].serial);
      if k in m {
        assert Key(rows[m[k]].serial) == k;
        return None;
      }
      m := m[k := i];
    }
    assert rows[..|rows|] == rows;
    r := Some(m);
  }

  /** TXT_DB_create_index() on the name column, restricted to valid rows. */
  method BuildNameIndex(rows: seq<Row>) returns (r: Option<map<string, nat>>)
    ensures r.Some? <==> UniqueSubjects(rows)
    ensures r.Some? ==> IsNameIndex(rows, r.value) && r.value.Values == ValidRows(rows)
  {
    var m: map<string, nat> := map[];
    for i := 0 to |rows|
      invariant IsNameIndex(rows[..i], m)
      invariant forall n | n in m :: CaState.Valid(rows[m[n]])
      invariant forall j | 0 <= j < i && CaState.Valid(rows[j]) :: rows[j].name in m && m[rows[j].name] == j
    {
      if CaState.Valid(rows[i]) {
        var n := rows[i].name;
        if n in m {
          assert rows[m[n]].name == n;
          return None;
        }
        m := m[n := i];
      }
    }
    r := Some(m);
    forall i | i in ValidRows(rows) ensures i in m.Values {
      assert m[rows[i].name] == i;
    }
  }

  class CaDb {
    var rows: seq<Row>
    var serialIndex: map<string, nat>
    var nameIndex: map<string, nat>
    const unique: bool

    ghost function Abs(): Db
      reads this
    {
      Db(rows, unique, nameIndex.Values)
    }

    ghost predicate Valid()
      reads this
    {
      && IsSerialIndex(rows, serialIndex)
      && IsNameIndex(rows, nameIndex)
      && (!unique ==> nameIndex == map[])
      && Inv(Abs())
    }

    constructor (rows: seq<Row>, unique: bool, serialIndex: map<string, nat>, nameIndex: map<string, nat>)
      requires IsSerialIndex(rows, serialIndex) && IsNameIndex(rows, nameIndex)
      requires Indexed(rows, unique) == Some(Db(rows, unique, nameIndex.Values))
      requires !unique ==> nameIndex == map[]
      ensures Valid() && Abs() == Indexed(rows, unique).value
    {
      this.rows, this.serialIndex, this.nameIndex, this.unique := rows, serialIndex, nameIndex, unique;
      IndexedInv(rows, unique);
    }

    /** index_index() */
    static method Load(rows: seq<Row>, unique: bool) returns (r: Option<CaDb>)
      ensures r.Some? <==> Indexed(rows, unique).Some?
      ensures r.Some? ==> fresh(r.value) && r.value.Valid() && r.value.Abs() == Indexed(rows, unique).value
    {
      var serials := BuildSerialIndex(rows);
      if serials.None? {
        return None;
      }
      var names: map<string, nat> := map[];
      if unique {
        var n := BuildNameIndex(rows);
        if n.None? {
          return None;
        }
        names := n.value;
      }
      assert !unique ==> names.Values == {};
      var db := new CaDb(rows, unique, serials.value, names);
      r := Some(db);
    }

    /** The serial index answers what a scan of the rows would. */
    lemma SerialLookup(serial: string)
      requires Valid()
      ensures FindSerial(rows, serial) == if Key(serial) in serialIndex then serialIndex[Key(serial)] else -1
    {
      if Key(serial) in serialIndex {
        assert Key(rows[serialIndex[Key(serial)]].serial) == Key(serial);
      }
    }

    lemma NameLookup(name: string)
      requires Valid()
      ensures NameTaken(Abs(), name) <==> name in nameIndex
    {
      if name in nameIndex {
        assert nameIndex[name] in nameIndex.Values;
      }
    }

    /** TXT_DB_get_by_index() on the serial column: a position, or -1. */
    method GetBySerial(serial: string) returns (i: int)
      requires Valid()
      ensures i == FindSerial(rows, serial)
    {
      SerialLookup(serial);
      i := if Key(serial) in serialIndex then serialIndex[Key(serial)] else -1;
    }

    /** TXT_DB_insert() */
    method Insert(row: Row) returns (ok: bool)
      requires Valid()
      modifies this
      ensures Valid() && (Abs(), ok) == CaState.Insert(old(Abs()), row)
    {
      SerialLookup(row.serial);
      NameLookup(row.name);
      InsertInv(Abs(), row);
      var named := unique && CaState.Valid(row);
      if Key(row.serial) in serialIndex || (named && row.name in nameIndex) {
        return false;
      }
      SerialIndexGrows(rows, serialIndex, row);
      NameIndexGrows(rows, nameIndex, row);
      ghost var goal := CaState.Insert(Abs(), row).0;
      serialIndex := serialIndex[Key(row.serial) := |rows|];
      if named {
        nameIndex := nameIndex[row.name := |rows|];
      }
      rows := rows + [row];
      assert Abs() == goal;
      ok := true;
    }

    /** The clash checks, the question and the insertion of do_body(). */
    method Issue(cert: Cert, answer: Answer) returns (code: int)
      requires Valid()
      modifies this
      ensures Valid() && (Abs(), code) == IssueStep(old(Abs()), cert, answer)
    {
      var row := NewRow(cert);
      NameLookup(row.name);
      if unique && row.name in nameIndex {
        return -1;
      }
      var i := GetBySerial(row.serial);
      if i != -1 {
        return -1;
      }
      if answer == Decline {
        return 0;
      }
      if answer == SignFails {
        return -1;
      }
      var ok := Insert(row);
      code := if ok then 1 else -1;
    }

    /** do_revoke(); the retry after an insertion is the only nested call. */
    method Revoke(lib: Asn1, cert: Cert, how: Revocation, now: Tm) returns (code: int)
      requires Valid() && ValidTm(now)
      modifies this
      ensures Valid() && (Abs(), code) == RevokeStep(old(Abs()), cert, how, RevocationField(lib, how, now))
      decreases if FindSerial(rows, SerialText(cert.serial)) == -1 then 1 else 0
    {
      var row := NewRow(cert);
      var i := GetBySerial(row.serial);
      if i == -1 {
        var ok := Insert(row);
        if !ok {
          return -1;
        }
        if how == AsValid {
          return 1;
        }
        ghost var last := |rows| - 1;
        assert Key(rows[last].serial) == Key(row.serial);
        assert FindSerial(rows, row.serial) == last;
        code := Revoke(lib, cert, how, now);
      } else if rows[i].name != row.name || how == AsValid || Revoked(rows[i]) {
        code := -1;
      } else {
        var field := RevocationField(lib, how, now);
        if field.None? {
          return -1;
        }
        MarkRevoked(i, field.value);
        code := 1;
      }
    }

    method MarkRevoked(i: nat, field: string)
      requires Valid() && i < |rows| && !Revoked(rows[i])
      modifies this`rows
      ensures Valid() && Abs() == old(Abs()).(rows := old(rows)[i := old(rows)[i].(kind := "R", revocation := field)])
    {
      ghost var goal := rows[i := rows[i].(kind := "R", revocation := field)];
      ChangeInv(Abs(), goal);
      IndicesStay(rows, goal, serialIndex, nameIndex);
      rows := rows[i := rows[i].(kind := "R", revocation := field)];
    }

    /** The loop of do_updatedb(), on the rows alone. */
    method MarkExpired(lib: Asn1, clock: int) returns (count: int)
      modifies this`rows
      ensures var h := Horizon(lib, old(rows));
              && |rows| == |old(rows)|
              && (forall k | 0 <= k < h :: rows[k] == ExpireRow(lib, old(rows)[k], clock))
              && (forall k | h <= k < |rows| :: rows[k] == old(rows)[k])
              && count == if h < |rows| then -1 else DueCount(lib, old(rows), clock, h)
    {
      ghost var before := rows;
      count := 0;
      for i := 0 to |rows|
        invariant |rows| == |before| && i <= Horizon(lib, before)
        invariant forall k | 0 <= k < i :: rows[k] == ExpireRow(lib, before[k], clock)
        invariant forall k | i <= k < |rows| :: rows[k] == before[k]
        invariant count == DueCount(lib, before, clock, i)
      {
        if CaState.Valid(rows[i]) {
          var date := lib.timeOf(rows[i].expiry);
          if date.None? {
            return -1;
          }
          if date.value <= clock {
            rows := rows[i := rows[i].(kind := "E")];
            count := count + 1;
          }
        }
      }
    }

    /** do_updatedb() */
    method UpdateDb(lib: Asn1, clock: int) returns (count: int)
      requires Valid()
      modifies this`rows
      ensures Valid() && (Abs(), count) == ExpireStep(lib, old(Abs()), clock)
    {
      ghost var goal := ExpireStep(lib, Abs(), clock).0;
      ExpireInv(lib, Abs(), clock);
      IndicesStay(rows, goal.rows, serialIndex, nameIndex);
      count := MarkExpired(lib, clock);
      assert rows == goal.rows && Abs() == goal;
    }
  }
}
