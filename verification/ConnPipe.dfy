/**
 The in-memory connection of the TLS benchmark: bytes written by one end are carried to the
 other end's read buffer, from which consumed bytes are removed only lazily.
 */
module ConnPipe {
  import opened Common

  const CHUNK := 262144

  class Conn {
    var readBuffer: seq<byte>       // m_read_buffer
    var unread: nat                 // what the memory BIO over its end still holds
    var stale: bool                 // the buffer was changed since the BIO was installed
    var writesTo: seq<byte>         // bytes pending in the write BIO
    ghost var sent: seq<byte>       // everything ever written here
    ghost var received: seq<byte>   // everything ever consumed here

    /** The BIO may be touched: it is a suffix of the read buffer. */
    ghost predicate Valid()
      reads this
    {
      unread <= |readBuffer| && !stale
    }

    ghost function Unread(): seq<byte>
      reads this
      requires unread <= |readBuffer|
    {
      readBuffer[|readBuffer| - unread..]
    }

    constructor ()
      ensures Valid() && readBuffer == [] && writesTo == [] && sent == [] && received == []
    {
      readBuffer, writesTo, sent, received := [], [], [], [];
      unread, stale := 0, false;
    }

    /** The move constructor: the read BIO is installed anew over the whole buffer. */
    constructor Move(other: Conn)
      requires other.Valid()
      modifies other
      ensures Valid() && readBuffer == old(other.readBuffer) && Unread() == readBuffer
      ensures writesTo == old(other.writesTo) && sent == old(other.sent) && received == old(other.received)
      ensures other.readBuffer == [] && other.writesTo == []
      ensures Unread() == old(other.Unread()) <==> old(other.unread) == old(|other.readBuffer|)
    {
      readBuffer, writesTo := other.readBuffer, other.writesTo;
      sent, received := other.sent, other.received;
      unread, stale := |other.readBuffer|, false;
      new;
      ghost var unreadBefore := other.Unread();
      assert readBuffer[0..] == readBuffer;
      assert unreadBefore == readBuffer <==> other.unread == |readBuffer|;
      other.readBuffer, other.unread, other.writesTo := [], 0, [];
    }

    method InstallReadBio()
      modifies this`unread, this`stale
      ensures Valid() && unread == |readBuffer|
    {
      unread, stale := |readBuffer|, false;
    }

    /** Removes consumed bytes; the BIO must be installed again before it is used. */
    method DropReadBytes()
      requires Valid()
      modifies this`readBuffer, this`stale
      ensures readBuffer == old(Unread()) && stale
    {
      var consumed := |readBuffer| - unread;
      readBuffer, stale := readBuffer[consumed..], true;
    }

    method Write(data: seq<byte>)
      modifies this`writesTo, this`sent
      ensures writesTo == old(writesTo) + data && sent == old(sent) + data
    {
      writesTo, sent := writesTo + data, sent + data;
    }

    /** One read from the BIO: at most n bytes. */
    method ReadSome(n: nat) returns (data: seq<byte>)
      requires Valid()
      modifies this`unread, this`received
      ensures Valid() && data + Unread() == old(Unread()) && received == old(received) + data
      ensures |data| == if n < old(unread) then n else old(unread)
    {
      var k := if n < unread then n else unread;
      var at := |readBuffer| - unread;
      data := readBuffer[at..at + k];
      unread, received := unread - k, received + data;
    }

    /**
     read(): reads again until n bytes have come, each time as many as are delivered. Running
     out of bytes trips its assertion, here None; what had come by then is consumed.
     */
    method Read(n: nat, deliver: nat -> nat) returns (data: Option<seq<byte>>)
      requires Valid() && forall m | m > 0 :: 1 <= deliver(m) <= m
      modifies this`unread, this`received
      ensures Valid() && (data.Some? <==> n <= old(unread))
      ensures data.Some? ==>
                && |data.value| == n && data.value + Unread() == old(Unread())
                && received == old(received) + data.value
      ensures data.None? ==> unread == 0 && received == old(received) + old(Unread())
    {
      var buf: seq<byte>, left: nat := [], n;
      assert [] + Unread() == Unread() && received + [] == received;
      while left > 0
        invariant Valid() && |buf| + left == n
        invariant buf + Unread() == old(Unread()) && received == old(received) + buf
        decreases left
      {
        var rd := ReadSome(deliver(left));
        ghost var before := buf;
        buf := buf + rd;
        assert before + (rd + Unread()) == buf + Unread();
        if rd == [] {
          assert buf == before && Unread() == [] && buf + [] == buf;
          assert |buf| == old(unread);
          return None;
        }
        left := left - |rd|;
      }
      assert |buf + Unread()| == |old(Unread())|;
      data := Some(buf);
    }

    /** Reading from the write BIO. */
    method TakePending(n: nat) returns (buf: seq<byte>)
      modifies this`writesTo
      ensures buf + writesTo == old(writesTo) && |buf| == if n < old(|writesTo|) then n else old(|writesTo|)
    {
      var k := if n < |writesTo| then n else |writesTo|;
      buf, writesTo := writesTo[..k], writesTo[k..];
    }

    /** One chunk of a transfer: the first one removes consumed bytes before it is added. */
    method Accept(buf: seq<byte>, first: bool)
      requires first ==> Valid()
      modifies this`readBuffer, this`stale
      ensures readBuffer == (if first then old(Unread()) else old(readBuffer)) + buf
      ensures stale == (first || old(stale))
    {
      if first {
        DropReadBytes();
      }
      readBuffer := readBuffer + buf;
    }

    /** transfer_to() */
    method TransferTo(other: Conn)
      requires Valid() && other.Valid()
      modifies this`writesTo, other`readBuffer, other`unread, other`stale
      ensures Valid() && other.Valid()
      ensures writesTo == [] && other.Unread() == old(other.Unread()) + old(writesTo)
    {
      var newBytes := false;
      ghost var carried: seq<byte> := [];
      ghost var unreadBefore, pendingBefore := other.Unread(), writesTo;
      while true
        invariant carried + writesTo == pendingBefore
        invariant !newBytes ==> carried == [] && !other.stale
        invariant !newBytes ==> other.readBuffer == old(other.readBuffer) && other.unread == old(other.unread)
        invariant newBytes ==> other.readBuffer == unreadBefore + carried
        invariant this != other ==> !stale && unread == old(unread) && readBuffer == old(readBuffer)
        decreases |writesTo|
      {
        var buf := TakePending(CHUNK);
        if |buf| == 0 {
          break;
        }
        other.Accept(buf, !newBytes);
        newBytes := true;
        Regroup(unreadBefore, carried, buf);
        Regroup(carried, buf, writesTo);
        carried := carried + buf;
      }
      assert carried == pendingBefore;
      if newBytes {
        other.InstallReadBio();
      } else {
        assert unreadBefore + [] == unreadBefore;
      }
    }
  }

  lemma Regroup(a: seq<byte>, b: seq<byte>, c: seq<byte>)
    ensures a + b + c == a + (b + c)
  {
  }

  lemma Prefix(u: seq<byte>, data: seq<byte>, rest: seq<byte>)
    requires data + rest == u
    ensures u[..|data|] == data && u[|data|..] == rest
  {
  }

  /** Nothing written by one end is lost, repeated or reordered on its way to the other. */
  ghost predicate Fifo(from: Conn, to: Conn)
    reads from, to
  {
    to.unread <= |to.readBuffer| && to.received + to.Unread() + from.writesTo == from.sent
  }

  datatype Op =
    | WriteOp(client: bool, data: seq<byte>)
    | ReadSomeOp(client: bool, n: nat)
    | ReadOp(client: bool, n: nat, deliver: nat -> nat)
    | TransferOp(client: bool)

  ghost predicate ValidOp(op: Op) {
    op.ReadOp? ==> forall m | m > 0 :: 1 <= op.deliver(m) <= m
  }

  // ----- the simple form: a queue of unread bytes and a queue of pending ones

  datatype Side = Side(unread: seq<byte>, pending: seq<byte>, sent: seq<byte>, received: seq<byte>)

  ghost function SideOf(c: Conn): Side
    reads c
    requires c.Valid()
  {
    Side(c.Unread(), c.writesTo, c.sent, c.received)
  }

  function Written(a: Side, data: seq<byte>): Side {
    a.(pending := a.pending + data, sent := a.sent + data)
  }

  /** The first n bytes are read, or all there are. */
  function Taken(a: Side, n: nat): Side {
    var k := if n < |a.unread| then n else |a.unread|;
    a.(unread := a.unread[k..], received := a.received + a.unread[..k])
  }

  function Carried(a: Side, b: Side): (Side, Side) {
    (a.(pending := []), b.(unread := b.unread + a.pending))
  }

  function Apply(op: Op, c: Side, s: Side): (Side, Side) {
    match op
    case WriteOp(client, data) => if client then (Written(c, data), s) else (c, Written(s, data))
    case ReadSomeOp(client, n) => if client then (Taken(c, n), s) else (c, Taken(s, n))
    case ReadOp(client, n, _) => if client then (Taken(c, n), s) else (c, Taken(s, n))
    case TransferOp(client) =>
      if client then Carried(c, s) else var (s', c') := Carried(s, c); (c', s')
  }

  function ApplyAll(ops: seq<Op>, c: Side, s: Side): (Side, Side) {
    if ops == [] then (c, s)
    else
      var (c', s') := ApplyAll(ops[..|ops| - 1], c, s);
      Apply(ops[|ops| - 1], c', s')
  }

  /**
   Any interleaving of writes, reads, partial reads and transfers in both directions: the
   connections behave as two queues each, and no byte is lost, repeated or reordered.
   */
  method Interleave(client: Conn, server: Conn, ops: seq<Op>)
    requires client != server && client.Valid() && server.Valid()
    requires Fifo(client, server) && Fifo(server, client) && forall op | op in ops :: ValidOp(op)
    modifies client, server
    ensures client.Valid() && server.Valid()
    ensures (SideOf(client), SideOf(server)) == ApplyAll(ops, old(SideOf(client)), old(SideOf(server)))
    ensures Fifo(client, server) && Fifo(server, client)
    ensures client.received <= server.sent && server.received <= client.sent
  {
    ghost var c, s := SideOf(client), SideOf(server);
    for i := 0 to |ops|
      invariant client.Valid() && server.Valid() && Fifo(client, server) && Fifo(server, client)
      invariant (SideOf(client), SideOf(server)) == ApplyAll(ops[..i], c, s)
    {
      hide ApplyAll, Fifo;
      ApplyNext(ops, i, c, s);
      Perform(client, server, ops[i]);
    }
    assert ops[..|ops|] == ops;
  }

  lemma ApplyNext(ops: seq<Op>, i: nat, c: Side, s: Side)
    requires i < |ops|
    ensures ops[i] in ops
    ensures var (c', s') := ApplyAll(ops[..i], c, s);
            ApplyAll(ops[..i + 1], c, s) == Apply(ops[i], c', s')
  {
    assert ops[..i + 1][..i] == ops[..i];
  }

  method Perform(client: Conn, server: Conn, op: Op)
    requires client != server && client.Valid() && server.Valid() && ValidOp(op)
    requires Fifo(client, server) && Fifo(server, client)
    modifies client, server
    ensures client.Valid() && server.Valid()
    ensures (SideOf(client), SideOf(server)) == Apply(op, old(SideOf(client)), old(SideOf(server)))
    ensures Fifo(client, server) && Fifo(server, client)
  {
    hide Fifo, Written, Taken, Carried;
    match op {
      case WriteOp(c, data) =>
        if c { WriteStep(client, server, data); } else { WriteStep(server, client, data); }
      case ReadSomeOp(c, n) =>
        if c { ReadSomeStep(client, server, n); } else { ReadSomeStep(server, client, n); }
      case ReadOp(c, n, deliver) =>
        if c { ReadStep(client, server, n, deliver); } else { ReadStep(server, client, n, deliver); }
      case TransferOp(c) =>
        if c { TransferStep(client, server); } else { TransferStep(server, client); }
    }
  }

  method WriteStep(a: Conn, b: Conn, data: seq<byte>)
    requires a != b && a.Valid() && b.Valid() && Fifo(a, b) && Fifo(b, a)
    modifies a
    ensures a.Valid() && b.Valid() && Fifo(a, b) && Fifo(b, a)
    ensures SideOf(a) == Written(old(SideOf(a)), data)
  {
    a.Write(data);
  }

  method ReadStep(a: Conn, b: Conn, n: nat, deliver: nat -> nat)
    requires a != b && a.Valid() && b.Valid() && Fifo(a, b) && Fifo(b, a)
    requires forall m | m > 0 :: 1 <= deliver(m) <= m
    modifies a`unread, a`received
    ensures a.Valid() && b.Valid() && Fifo(a, b) && Fifo(b, a)
    ensures SideOf(a) == Taken(old(SideOf(a)), n)
  {
    ghost var before, u := a.received, a.Unread();
    var data := a.Read(n, deliver);
    ghost var got := if data.Some? then data.value else u;
    assert got + a.Unread() == u;
    Prefix(u, got, a.Unread());
    Regroup(before, got, a.Unread());
  }

  method ReadSomeStep(a: Conn, b: Conn, n: nat)
    requires a != b && a.Valid() && b.Valid() && Fifo(a, b) && Fifo(b, a)
    modifies a`unread, a`received
    ensures a.Valid() && b.Valid() && Fifo(a, b) && Fifo(b, a)
    ensures SideOf(a) == Taken(old(SideOf(a)), n)
  {
    ghost var before, u := a.received, a.Unread();
    var data := a.ReadSome(n);
    Prefix(u, data, a.Unread());
    Regroup(before, data, a.Unread());
  }

  method TransferStep(a: Conn, b: Conn)
    requires a != b && a.Valid() && b.Valid() && Fifo(a, b) && Fifo(b, a)
    modifies a`writesTo, b`readBuffer, b`unread, b`stale
    ensures a.Valid() && b.Valid() && Fifo(a, b) && Fifo(b, a)
    ensures (SideOf(a), SideOf(b)) == Carried(old(SideOf(a)), old(SideOf(b)))
    ensures a.writesTo == [] && b.received + b.Unread() == a.sent
  {
    ghost var u, w := b.Unread(), a.writesTo;
    a.TransferTo(b);
    assert b.received + (u + w) == b.received + u + w;
  }

  /** A connection may be moved without harm exactly when nothing of its buffer has been consumed. */
  method MoveReader(writer: Conn, reader: Conn) returns (moved: Conn)
    requires writer != reader && reader.Valid() && Fifo(writer, reader)
    modifies reader
    ensures fresh(moved) && moved.Valid()
    ensures Fifo(writer, moved) <==> old(reader.unread) == old(|reader.readBuffer|)
  {
    moved := new Conn.Move(reader);
    ghost var r, p := moved.received, writer.writesTo;
    ghost var u, v := old(reader.Unread()), moved.Unread();
    assert r + u + p == writer.sent;
    if r + v + p == r + u + p {
      assert |v| == |u|;
    }
  }
}
