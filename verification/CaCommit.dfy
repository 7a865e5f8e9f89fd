/**
 Committing a run of ca to its files. Every write and every rename is a step after which the
 run may be cut short, and each of them may fail.
 */
module CaCommit {
  import opened Common
  import opened AsnTime
  import opened RevocationInfo
  import opened TextDb
  import opened SerialHex
  import opened CaState
  import opened CaDatabase
  import opened CaProperties
  import opened CaBatch

  datatype File = Serial | SerialNew | SerialOld | Index | IndexNew | IndexOld | Attr | AttrNew | AttrOld

  datatype Content = Counter(n: int) | Rows(rows: seq<Row>) | Attributes(unique: bool) | Partial

  type Files = map<File, Content>

  datatype Renamed = Done | Missing | Failed

  /**
   What becomes of writing a file: it cannot be opened, or its content is cut short, which the
   writing call reports or (as when the file is closed) nothing does, or it is complete.
   */
  datatype Written = NotOpened | CutReported | CutUnnoticed | Complete

  function Stored(w: Written, c: Content): Content {
    if w == Complete then c else Partial
  }

  /** The values before and after a commit, and whether the run keeps a serial file. */
  datatype Change = Change(numbered: bool, counter: int, rows: seq<Row>, counter': int, rows': seq<Row>)

  /**
   If both the counter and the index are whole, the counter is above every serial of the index,
   except those that the index already had at or above the counter before.
   */
  predicate CrashSafe(f: Files, c: Change) {
    Serial in f && Index in f && f[Serial].Counter? && f[Index].Rows? ==>
      NoneAbove(c.rows, c.counter, f[Index].rows, f[Serial].n)
  }

  /** The old or the new index is in place, or the old one is beside it. */
  predicate IndexKept(f: Files, c: Change) {
    || (Index in f && (f[Index] == Rows(c.rows) || f[Index] == Rows(c.rows')))
    || (IndexOld in f && f[IndexOld] == Rows(c.rows))
  }

  predicate CounterKept(f: Files, c: Change) {
    || (Serial in f && (f[Serial] == Counter(c.counter) || f[Serial] == Counter(c.counter')))
    || (SerialOld in f && f[SerialOld] == Counter(c.counter))
  }

  /** Nothing is lost: whatever was or is to be live is somewhere whole. */
  predicate NothingLost(f: Files, c: Change) {
    IndexKept(f, c) && (c.numbered ==> CounterKept(f, c))
  }

  /** The new values follow from the old ones without a new serial at or above the counter. */
  predicate Sound(c: Change) {
    c.counter <= c.counter' && NoneAbove(c.rows, c.counter, c.rows', c.counter')
  }

  /** The live files hold old, new or cut values; a new index is never beside an old counter. */
  predicate Live(f: Files, c: Change, rotated: bool) {
    && (Serial in f ==>
          f[Serial] == Counter(c.counter') || f[Serial] == if rotated then Partial else Counter(c.counter))
    && (Index in f ==>
          f[Index] == Rows(c.rows) || (rotated && (f[Index] == Rows(c.rows') || f[Index] == Partial)))
    && NothingLost(f, c)
  }

  lemma LiveIsSafe(f: Files, c: Change, rotated: bool)
    requires Sound(c) && Live(f, c, rotated)
    ensures CrashSafe(f, c) && NothingLost(f, c)
  {
    hide SerialSyntax, SerialValue;
    if Serial in f && Index in f && f[Serial].Counter? && f[Index] == Rows(c.rows) {
      forall r | r in c.rows ensures RowBelow(r, f[Serial].n) || AlreadyAbove(c.rows, c.counter, r.serial) {}
    }
  }

  /** The states of the disk are live ones, first without and then with the new counter. */
  ghost predicate AllLive(states: seq<Files>, c: Change) {
    forall f | f in states :: Live(f, c, false) || Live(f, c, true)
  }

  predicate Same(a: Files, b: Files, f: File) {
    (f in a <==> f in b) && (f in a ==> a[f] == b[f])
  }

  ghost predicate SameBut(a: Files, b: Files, names: set<File>) {
    forall f | f !in names :: (f in a <==> f in b) && (f in a ==> a[f] == b[f])
  }

  /** The attribute files have no part in it. */
  lemma LiveApart(f: Files, g: Files, c: Change)
    requires Live(f, c, true) && SameBut(g, f, {Attr, AttrNew, AttrOld})
    ensures Live(g, c, true)
  {
  }

  /** Nor do the files under the suffix "new". */
  lemma LiveBeside(f: Files, g: Files, c: Change)
    requires Live(f, c, false) && SameBut(g, f, {SerialNew, IndexNew, AttrNew})
    ensures Live(g, c, false)
  {
  }

  function Moved(f: Files, from: File, to: File): Files
    requires from in f
  {
    (f - {from})[to := f[from]]
  }

  /** The counter moved aside, the new one moved in place, and the old one moved back. */
  lemma CounterAside(f: Files, c: Change)
    requires Live(f, c, false) && Serial in f && f[Serial] == Counter(c.counter)
    ensures Live(Moved(f, Serial, SerialOld), c, false)
  {
  }

  lemma CounterPlaced(f: Files, c: Change)
    requires Live(f, c, false) && SerialOld in f && f[SerialOld] == Counter(c.counter)
    requires SerialNew in f && (f[SerialNew] == Counter(c.counter') || f[SerialNew] == Partial)
    ensures Live(Moved(f, SerialNew, Serial), c, true)
  {
  }

  lemma CounterBack(f: Files, c: Change)
    requires Live(f, c, false) && SerialOld in f && f[SerialOld] == Counter(c.counter)
    ensures Live(Moved(f, SerialOld, Serial), c, false)
  {
  }

  /** The same for the index. */
  lemma IndexAside(f: Files, c: Change)
    requires Live(f, c, true) && Index in f && f[Index] == Rows(c.rows)
    ensures Live(Moved(f, Index, IndexOld), c, true)
  {
  }

  lemma IndexPlaced(f: Files, c: Change)
    requires Live(f, c, true) && IndexOld in f && f[IndexOld] == Rows(c.rows)
    requires IndexNew in f && (f[IndexNew] == Rows(c.rows') || f[IndexNew] == Partial)
    ensures Live(Moved(f, IndexNew, Index), c, true)
  {
  }

  lemma IndexBack(f: Files, c: Change)
    requires Live(f, c, true) && IndexOld in f && f[IndexOld] == Rows(c.rows)
    ensures Live(Moved(f, IndexOld, Index), c, true)
    ensures Index in f ==> Live(Moved(f, Index, IndexNew), c, true)
  {
  }

  class Disk {
    var files: Files
    var steps: nat
    const outcome: nat -> Written   // of the n-th operation, if it is a write
    const fate: nat -> bool         // whether the n-th operation succeeds, if it is a rename
    ghost var trace: seq<Files>     // every state since the run began

    constructor (files: Files, outcome: nat -> Written, fate: nat -> bool)
      ensures this.files == files && trace == [] && steps == 0 && this.outcome == outcome && this.fate == fate
    {
      this.files, this.outcome, this.fate, steps, trace := files, outcome, fate, 0, [];
    }

    /** save_index() succeeds: errors are looked for only in writing the rows, and there must be some. */
    predicate Saves(s: nat, rows: seq<Row>) {
      rows != [] && outcome(s) in {CutUnnoticed, Complete} && outcome(s + 1) != NotOpened
    }

    /** rotate_index() succeeds. */
    predicate Rotates(s: nat, attr: bool) {
      fate(s) && fate(s + 1) && (attr ==> fate(s + 2)) && fate(s + 3)
    }

    method Write(f: File, c: Content) returns (w: Written)
      modifies this
      ensures w == outcome(old(steps)) && steps == old(steps) + 1
      ensures files == if w == NotOpened then old(files) else old(files)[f := Stored(w, c)]
      ensures trace == old(trace) + [files]
    {
      w := outcome(steps);
      if w != NotOpened {
        files := files[f := Stored(w, c)];
      }
      steps, trace := steps + 1, trace + [files];
    }

    method Rename(from: File, to: File) returns (r: Renamed)
      requires from != to
      modifies this
      ensures r == if from !in old(files) then Missing else if fate(old(steps)) then Done else Failed
      ensures files == if r == Done then Moved(old(files), from, to) else old(files)
      ensures trace == old(trace) + [files] && steps == old(steps) + 1
    {
      r := if from !in files then Missing else if fate(steps) then Done else Failed;
      if r == Done {
        files := Moved(files, from, to);
      }
      steps, trace := steps + 1, trace + [files];
    }

    /** save_serial() under the suffix "new": it fails only if the file cannot be opened. */
    method SaveSerial(ghost c: Change, counter: int) returns (ok: bool)
      requires Live(files, c, false) && AllLive(trace, c)
      modifies this
      ensures AllLive(trace, c) && SameBut(files, old(files), {SerialNew}) && steps == old(steps) + 1
      ensures ok <==> outcome(old(steps)) != NotOpened
      ensures ok ==> SerialNew in files && files[SerialNew] == Stored(outcome(old(steps)), Counter(counter))
    {
      hide Live;
      ghost var start := files;
      var w := Write(SerialNew, Counter(counter));
      LiveBeside(start, files, c);
      ok := w != NotOpened;
    }

    /** rotate_serial() */
    method RotateSerial(ghost c: Change) returns (ok: bool)
      requires Live(files, c, false) && AllLive(trace, c)
      requires files.Keys >= {Serial, SerialNew} && files[Serial] == Counter(c.counter)
      requires files[SerialNew] == Counter(c.counter') || files[SerialNew] == Partial
      modifies this
      ensures AllLive(trace, c)
      ensures Live(files, c, false) || Live(files, c, true)
      ensures SameBut(files, old(files), {Serial, SerialNew, SerialOld})
      ensures ok <==> fate(old(steps)) && fate(old(steps) + 1)
      ensures ok ==>
                && Live(files, c, true) && steps == old(steps) + 2
                && Serial in files && files[Serial] == old(files)[SerialNew]
      ensures !fate(old(steps)) ==> files == old(files)
      ensures !ok && fate(old(steps) + 2) ==> Serial in files && files[Serial] == old(files)[Serial]
    {
      hide Live;
      CounterAside(files, c);
      var first := Rename(Serial, SerialOld);
      if first == Failed {
        return false;
      }
      CounterPlaced(files, c);
      CounterBack(files, c);
      var second := Rename(SerialNew, Serial);
      if second != Done {
        var undo := Rename(SerialOld, Serial);
        return false;
      }
      return true;
    }

    /** save_index() under the suffix "new" */
    method SaveIndex(ghost c: Change, rows: seq<Row>, unique: bool) returns (ok: bool)
      requires Live(files, c, false) && AllLive(trace, c)
      modifies this
      ensures AllLive(trace, c) && SameBut(files, old(files), {IndexNew, AttrNew})
      ensures ok <==> Saves(old(steps), rows)
      ensures ok ==>
                && files.Keys >= {IndexNew, AttrNew} && steps == old(steps) + 2
                && files[IndexNew] == Stored(outcome(old(steps)), Rows(rows))
                && files[AttrNew] == Stored(outcome(old(steps) + 1), Attributes(unique))
    {
      hide Live;
      ghost var start := files;
      var w := Write(IndexNew, Rows(rows));
      LiveBeside(start, files, c);
      if w == NotOpened || w == CutReported || rows == [] {
        return false;
      }
      w := Write(AttrNew, Attributes(unique));
      LiveBeside(start, files, c);
      ok := w != NotOpened;
    }

    /** The first half of rotate_index(). */
    method SwapIndex(ghost c: Change) returns (ok: bool)
      requires Live(files, c, true) && AllLive(trace, c)
      requires Index in files && files[Index] == Rows(c.rows)
      requires IndexNew in files && (files[IndexNew] == Rows(c.rows') || files[IndexNew] == Partial)
      modifies this
      ensures AllLive(trace, c) && Live(files, c, true)
      ensures SameBut(files, old(files), {Index, IndexNew, IndexOld})
      ensures ok <==> fate(old(steps)) && fate(old(steps) + 1)
      ensures ok ==>
                && files.Keys >= {Index, IndexOld} && steps == old(steps) + 2
                && files[Index] == old(files)[IndexNew] && files[IndexOld] == Rows(c.rows)
      ensures !fate(old(steps)) ==> files == old(files)
      ensures !ok && fate(old(steps) + 2) ==> Index in files && files[Index] == old(files)[Index]
    {
      hide Live;
      IndexAside(files, c);
      var first := Rename(Index, IndexOld);
      if first == Failed {
        return false;
      }
      IndexPlaced(files, c);
      IndexBack(files, c);
      var second := Rename(IndexNew, Index);
      if second != Done {
        var undo := Rename(IndexOld, Index);
        return false;
      }
      return true;
    }

    /** Putting the old index back. */
    method UndoIndex(ghost c: Change)
      requires Live(files, c, true) && AllLive(trace, c)
      requires files.Keys >= {Index, IndexOld} && files[IndexOld] == Rows(c.rows)
      modifies this
      ensures AllLive(trace, c) && Live(files, c, true)
      ensures SameBut(files, old(files), {Index, IndexNew, IndexOld})
      ensures fate(old(steps) + 1) ==> Index in files && files[Index] == Rows(c.rows)
      ensures fate(old(steps)) ==> IndexNew in files && files[IndexNew] == old(files)[Index]
    {
      hide Live;
      IndexBack(files, c);
      var undo := Rename(Index, IndexNew);
      IndexBack(files, c);
      undo := Rename(IndexOld, Index);
    }

    /** The second half of rotate_index(), with the undoing of its own renames. */
    method SwapAttributes(ghost c: Change) returns (ok: bool)
      requires Live(files, c, true) && AllLive(trace, c) && AttrNew in files
      modifies this
      ensures AllLive(trace, c) && Live(files, c, true)
      ensures SameBut(files, old(files), {Attr, AttrNew, AttrOld})
      ensures ok <==> (Attr in old(files) ==> fate(old(steps))) && fate(old(steps) + 1)
      ensures ok ==> Attr in files && files[Attr] == old(files)[AttrNew]
      ensures !ok ==> steps == old(steps) + if Attr in old(files) && !fate(old(steps)) then 1 else 3
      ensures !ok && Attr in old(files) && fate(old(steps) + 2) ==> Attr in files && files[Attr] == old(files)[Attr]
    {
      hide Live;
      ghost var start := files;
      var third := Rename(Attr, AttrOld);
      LiveApart(start, files, c);
      if third == Failed {
        return false;
      }
      var fourth := Rename(AttrNew, Attr);
      LiveApart(start, files, c);
      if fourth != Done {
        var undo := Rename(AttrOld, Attr);
        LiveApart(start, files, c);
        return false;
      }
      return true;
    }

    /** The attributes, or the old index back. */
    method FinishIndex(ghost c: Change) returns (ok: bool)
      requires Live(files, c, true) && AllLive(trace, c) && AttrNew in files
      requires files.Keys >= {Index, IndexOld} && files[IndexOld] == Rows(c.rows)
      modifies this
      ensures AllLive(trace, c) && Live(files, c, true)
      ensures Same(files, old(files), Serial) && Same(files, old(files), SerialNew)
      ensures Same(files, old(files), SerialOld)
      ensures ok <==> (Attr in old(files) ==> fate(old(steps))) && fate(old(steps) + 1)
      ensures ok ==>
                && files.Keys >= {Index, Attr}
                && files[Index] == old(files)[Index] && files[Attr] == old(files)[AttrNew]
      ensures var undo := old(steps) + if Attr in old(files) && !fate(old(steps)) then 2 else 4;
              !ok && fate(undo) ==> Index in files && files[Index] == Rows(c.rows)
    {
      hide Live, AllLive;
      ok := SwapAttributes(c);
      if !ok {
        UndoIndex(c);
      }
    }

    /** rotate_index() */
    method RotateIndex(ghost c: Change) returns (ok: bool)
      requires Live(files, c, true) && AllLive(trace, c)
      requires Index in files && files[Index] == Rows(c.rows)
      requires IndexNew in files && (files[IndexNew] == Rows(c.rows') || files[IndexNew] == Partial)
      requires AttrNew in files
      modifies this
      ensures AllLive(trace, c) && Live(files, c, true)
      ensures Same(files, old(files), Serial) && Same(files, old(files), SerialNew)
      ensures Same(files, old(files), SerialOld)
      ensures ok <==> Rotates(old(steps), Attr in old(files))
      ensures ok ==>
                && files.Keys >= {Index, Attr}
                && files[Index] == old(files)[IndexNew] && files[Attr] == old(files)[AttrNew]
    {
      hide Live, AllLive;
      ok := SwapIndex(c);
      if ok {
        ok := FinishIndex(c);
      }
    }

    /**
     The commit of a batch: counter and index are saved beside the live files, the
     certificates are written, and then first the counter and last the index is put in place.
     Wherever the run stops, a whole live counter is above every serial that was issued into the
     live index, and nothing is lost. But a commit that succeeds may have put a counter, an index
     or attributes in place that are cut short: each is what its own writing left.
     */
    method Commit(ghost c: Change, counter: int, rows: seq<Row>, unique: bool, certsWritten: bool) returns (ok: bool)
      requires Sound(c) && c.counter' == counter && c.rows' == rows && trace == []
      requires files.Keys >= {Serial, Index} && files[Serial] == Counter(c.counter) && files[Index] == Rows(c.rows)
      modifies this
      ensures forall f | f in trace :: CrashSafe(f, c) && NothingLost(f, c)
      ensures CrashSafe(files, c) && NothingLost(files, c)
      ensures var s := old(steps);
              && (ok <==>
                    && outcome(s) != NotOpened && Saves(s + 1, rows) && certsWritten
                    && fate(s + 3) && fate(s + 4) && Rotates(s + 5, Attr in old(files)))
              && (ok ==>
                    && files.Keys >= {Serial, Index, Attr}
                    && files[Serial] == Stored(outcome(s), Counter(counter))
                    && files[Index] == Stored(outcome(s + 1), Rows(rows))
                    && files[Attr] == Stored(outcome(s + 2), Attributes(unique)))
      ensures !certsWritten || rows == [] ==>
                files.Keys >= {Serial, Index} && !ok &&
                files[Serial] == old(files)[Serial] && files[Index] == old(files)[Index]
    {
      hide CrashSafe, NothingLost, NoneAbove, Sound, Live;
      LiveAtStart(files, c);
      ok := Stage(c, counter, rows, unique);
      if ok && certsWritten {
        LiveAtStart(files, c);
        ok := RotateBoth(c);
      } else {
        LiveAtStart(files, c);
        ok := false;
      }
      forall f | f in trace ensures CrashSafe(f, c) && NothingLost(f, c) {
        LiveIsSafe(f, c, !Live(f, c, false));
      }
      LiveIsSafe(files, c, !Live(files, c, false));
    }

    /** First the counter, then the index. */
    method RotateBoth(ghost c: Change) returns (ok: bool)
      requires Live(files, c, false) && AllLive(trace, c)
      requires files.Keys >= {Serial, SerialNew, Index, IndexNew, AttrNew}
      requires files[Serial] == Counter(c.counter) && files[Index] == Rows(c.rows)
      requires files[SerialNew] == Counter(c.counter') || files[SerialNew] == Partial
      requires files[IndexNew] == Rows(c.rows') || files[IndexNew] == Partial
      modifies this
      ensures AllLive(trace, c) && (Live(files, c, false) || Live(files, c, true))
      ensures var s := old(steps);
              ok <==> fate(s) && fate(s + 1) && Rotates(s + 2, Attr in old(files))
      ensures ok ==>
                && files.Keys >= {Serial, Index, Attr}
                && files[Serial] == old(files)[SerialNew] && files[Index] == old(files)[IndexNew]
                && files[Attr] == old(files)[AttrNew]
    {
      hide Live, AllLive, Rotates;
      ok := RotateSerial(c);
      if ok {
        ok := RotateIndex(c);
      }
    }

    /** save_serial() and save_index() under the suffix "new". */
    method Stage(ghost c: Change, counter: int, rows: seq<Row>, unique: bool) returns (ok: bool)
      requires Live(files, c, false) && AllLive(trace, c)
      modifies this
      ensures AllLive(trace, c) && SameBut(files, old(files), {SerialNew, IndexNew, AttrNew})
      ensures ok <==> outcome(old(steps)) != NotOpened && Saves(old(steps) + 1, rows)
      ensures ok ==>
                && files.Keys >= {SerialNew, IndexNew, AttrNew} && steps == old(steps) + 3
                && files[SerialNew] == Stored(outcome(old(steps)), Counter(counter))
                && files[IndexNew] == Stored(outcome(old(steps) + 1), Rows(rows))
                && files[AttrNew] == Stored(outcome(old(steps) + 2), Attributes(unique))
    {
      hide Live, AllLive;
      ghost var start := files;
      ok := SaveSerial(c, counter);
      if !ok {
        return;
      }
      LiveBeside(start, files, c);
      ok := SaveIndex(c, rows, unique);
    }
  }

  lemma LiveAtStart(f: Files, c: Change)
    requires Index in f && f[Index] == Rows(c.rows)
    requires Serial in f ==> f[Serial] == Counter(c.counter)
    requires c.numbered ==> Serial in f
    ensures Live(f, c, false) && (c.counter == c.counter' ==> Live(f, c, true))
  {
  }

  /** An instance: a counter that was cut short is made live by a commit that reports success. */
  method CutCounterGoesLive(c: Change) returns (disk: Disk, ok: bool)
    requires Sound(c) && c.numbered && c.rows' != []
    ensures ok && Serial in disk.files && disk.files[Serial] == Partial
    ensures SerialOld in disk.files && disk.files[SerialOld] == Counter(c.counter)
    ensures Index in disk.files && disk.files[Index] == Rows(c.rows')
  {
    hide Sound, CrashSafe;
    disk := new Disk(map[Serial := Counter(c.counter), Index := Rows(c.rows)],
                     n => if n == 0 then CutReported else Complete, _ => true);
    ok := disk.Commit(c, c.counter', c.rows', true, true);
  }

  /**
   Replacing the index alone, as -revoke and -updatedb do. It succeeds exactly when the rows can be
   saved and rotated, and nothing is lost wherever it stops.
   */
  method ReplaceIndex(disk: Disk, ghost c: Change, rows: seq<Row>, unique: bool) returns (ok: bool)
    requires c.counter' == c.counter && c.rows' == rows && disk.trace == []
    requires Index in disk.files && disk.files[Index] == Rows(c.rows)
    requires Serial in disk.files ==> disk.files[Serial] == Counter(c.counter)
    requires c.numbered <==> Serial in disk.files
    modifies disk
    ensures ok <==> disk.Saves(old(disk.steps), rows) && disk.Rotates(old(disk.steps) + 2, Attr in old(disk.files))
    ensures forall f | f in disk.trace :: NothingLost(f, c) && (Sound(c) ==> CrashSafe(f, c))
    ensures Serial in disk.files <==> Serial in old(disk.files)
    ensures Serial in disk.files ==> disk.files[Serial] == old(disk.files)[Serial]
    ensures ok ==>
              && disk.files.Keys >= {Index, Attr}
              && disk.files[Index] == Stored(disk.outcome(old(disk.steps)), Rows(rows))
              && disk.files[Attr] == Stored(disk.outcome(old(disk.steps) + 1), Attributes(unique))
  {
    hide NothingLost, CrashSafe, NoneAbove, Sound;
    LiveAtStart(disk.files, c);
    ok := disk.SaveIndex(c, rows, unique);
    if ok {
      LiveAtStart(disk.files, c);
      ok := disk.RotateIndex(c);
    }
    forall f | f in disk.trace ensures NothingLost(f, c) && (Sound(c) ==> CrashSafe(f, c)) {
      if Sound(c) { LiveIsSafe(f, c, !Live(f, c, false)); }
    }
  }

  /** The counter of the serial file, if there is one. */
  function CounterOf(f: Files): int
    requires Serial in f ==> f[Serial].Counter?
  {
    if Serial in f then f[Serial].n else 0
  }

  lemma RevokeCode(db: Db, cert: Cert, how: Revocation, field: Option<string>)
    ensures RevokeStep(db, cert, how, field).1 in {1, -1}
  {
  }

  /**
   ca -revoke: the files are touched only after a successful revocation, so a refused one
   leaves the saved index as it was even when a row was already added in memory. Nothing is
   lost wherever the run stops. The counter stays as safe as it was exactly when the certificate
   cannot be added or its number is below the counter.
   */
  method RevokeCommand(db: CaDb, disk: Disk, lib: Asn1, cert: Cert, how: Revocation, now: Tm)
    returns (code: int, ok: bool)
    requires db.Valid() && ValidTm(now)
    requires Index in disk.files && disk.files[Index] == Rows(db.rows) && disk.trace == []
    requires Serial in disk.files ==> disk.files[Serial].Counter?
    modifies db, disk
    ensures db.Valid() && (db.Abs(), code) == RevokeStep(old(db.Abs()), cert, how, RevocationField(lib, how, now))
    ensures code != 1 ==> !ok && disk.files == old(disk.files)
    ensures var s, n := old(disk.steps), CounterOf(old(disk.files));
            var c := Change(Serial in old(disk.files), n, old(db.rows), n, db.rows);
            var kept := !MayAdd(old(db.Abs()), cert) || cert.serial < n;
            && (code == 1 ==> (ok <==> disk.Saves(s, db.rows) && disk.Rotates(s + 2, Attr in old(disk.files))))
            && (ok ==> Index in disk.files && disk.files[Index] == Stored(disk.outcome(s), Rows(db.rows)))
            && (forall f | f in disk.trace :: NothingLost(f, c))
            && (kept ==> forall f | f in disk.trace :: CrashSafe(f, c))
            && (ok && Serial in old(disk.files) ==>
                  (CrashSafe(disk.files, c) <==> kept || disk.outcome(s) != Complete))
  {
    hide Inv, IsSerialIndex, IsNameIndex, RevokeStep, RevocationField, NoneAbove, NothingLost, MayAdd;
    ghost var before := db.Abs();
    ghost var field := RevocationField(lib, how, now);
    RevokeCode(before, cert, how, field);
    code := db.Revoke(lib, cert, how, now);
    if code <= 0 {
      return code, false;
    }
    ghost var n := CounterOf(disk.files);
    ghost var c := Change(Serial in disk.files, n, before.rows, n, db.rows);
    RevokeStaysBelow(before, cert, how, field, n);
    ok := ReplaceIndex(disk, c, db.rows, db.unique);
  }

  /**
   ca -updatedb: with nothing marked, or an unreadable date, the files stay as they were, although
   rows may have been marked in memory before the unreadable one. Otherwise the index is
   replaced, and no stop on the way loses anything or brings a serial to the counter.
   */
  method UpdateCommand(db: CaDb, disk: Disk, lib: Asn1, clock: int) returns (count: int, ok: bool)
    requires db.Valid()
    requires Index in disk.files && disk.files[Index] == Rows(db.rows) && disk.trace == []
    requires Serial in disk.files ==> disk.files[Serial].Counter?
    modifies db, disk
    ensures db.Valid() && (db.Abs(), count) == ExpireStep(lib, old(db.Abs()), clock)
    ensures count <= 0 ==> disk.files == old(disk.files) && (ok <==> count == 0)
    ensures var s, n := old(disk.steps), CounterOf(old(disk.files));
            var c := Change(Serial in old(disk.files), n, old(db.rows), n, db.rows);
            && (count > 0 ==> (ok <==> disk.Saves(s, db.rows) && disk.Rotates(s + 2, Attr in old(disk.files))))
            && (count > 0 && ok ==>
                  Index in disk.files && disk.files[Index] == Stored(disk.outcome(s), Rows(db.rows)))
            && (forall f | f in disk.trace :: NothingLost(f, c) && CrashSafe(f, c))
  {
    hide Inv, IsSerialIndex, IsNameIndex, ExpireStep, NoneAbove, NothingLost, CrashSafe;
    ghost var before := db.Abs();
    count := db.UpdateDb(lib, clock);
    if count <= 0 {
      return count, count == 0;
    }
    ghost var n := CounterOf(disk.files);
    ghost var c := Change(Serial in disk.files, n, before.rows, n, db.rows);
    ExpireStaysBelow(lib, before, clock, n);
    ok := ReplaceIndex(disk, c, db.rows, db.unique);
  }

  /**
   ca on a batch of requests: nothing is saved when a request fails, when none is certified or
   when the operator cancels. Otherwise the counter advances by the number of certificates
   and the index grows by as many rows, if they were written whole; and at every step on the way
   the files are safe.
   */
  method IssueCommand(db: CaDb, disk: Disk, b: Batch, confirmed: bool, certsWritten: bool) returns (ok: bool)
    requires db.Valid() && ValidBatch(b) && disk.trace == []
    requires disk.files.Keys >= {Serial, Index} && disk.files[Serial].Counter? && disk.files[Index] == Rows(db.rows)
    modifies db, disk
    ensures var p := CertifyAll(Start(old(db.Abs()), old(disk.files)[Serial].n), Requests(b));
            var c := Change(true, old(disk.files)[Serial].n, old(db.rows), p.serial, p.db.rows);
            var s := old(disk.steps);
            && db.Valid() && db.Abs() == p.db && |p.db.rows| == |old(db.rows)| + p.done
            && (forall f | f in disk.trace :: CrashSafe(f, c) && NothingLost(f, c))
            && (p.failed || p.done == 0 || !confirmed ==> disk.files == old(disk.files))
            && (ok <==>
                  && !p.failed
                  && (p.done > 0 && confirmed ==>
                        && disk.outcome(s) != NotOpened && disk.Saves(s + 1, p.db.rows) && certsWritten
                        && disk.fate(s + 3) && disk.fate(s + 4) && disk.Rotates(s + 5, Attr in old(disk.files))))
            && (ok && p.done > 0 && confirmed ==>
                  && disk.files.Keys >= {Serial, Index, Attr}
                  && disk.files[Serial] == Stored(disk.outcome(s), Counter(old(disk.files)[Serial].n + p.done))
                  && disk.files[Index] == Stored(disk.outcome(s + 1), Rows(p.db.rows))
                  && disk.files[Attr] == Stored(disk.outcome(s + 2), Attributes(db.unique)))
  {
    hide Inv, IsSerialIndex, IsNameIndex, CertifyAll, NoneAbove, Below, CrashSafe, NothingLost;
    hide Disk.Saves, Disk.Rotates;
    var n := disk.files[Serial].n;
    ghost var before := db.Abs();
    var run := new CaBatch.Run(db, n);
    run.ProcessAll(b);
    BatchConservation(before, n, Requests(b));
    BatchStaysBelow(before, n, Requests(b));
    if run.failed {
      return false;
    }
    if run.certs == [] || !confirmed {
      return true;
    }
    ghost var c := Change(true, n, before.rows, run.serial, db.rows);
    ok := disk.Commit(c, run.serial, db.rows, db.unique, certsWritten);
  }
}
