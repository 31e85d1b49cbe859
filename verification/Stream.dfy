/** stream/main.go as sequential code: each call is taken as one action, during which the current transfer's
    goroutines may run.  StreamSystem has the interleavings with Close and with old transfers. */
module Streams {
  import opened Base
  import opened WindowContract
  import opened Placement
  import opened RingBuffers
  import opened Connections
  import opened Transfers
  import P = TransferProtocol

  /** A prefix of what a connection promises is the remote file's bytes from its start on. */
  lemma PrefixOfBodyIsSlice(remote: seq<byte>, start: nat, data: seq<byte>)
    requires data <= BodyFrom(remote, start)
    ensures IsSliceAt(remote, start, data)
  {
    if data != [] {
      assert data == remote[start..][..|data|] == remote[start..start + |data|];
    }
  }

  /** How one ReadAt went: was the seek position available, the requested one at once, or after the wait? */
  datatype Path = Path(available: bool, atOnce: bool, waited: bool) {

    /** The buffer is read only if the requested position was available in the end. */
    predicate Ready() { atOnce || waited }

    /** What ReadAt asks of the buffer before it reads: a reset exactly when the seek position is not available, and
        a wait exactly when the requested one is not. */
    function Asked(size: nat, seek: int, length: nat): seq<BufferCall> {
      var requested := RequestedPosition(size, seek, length);
      [Probe(seek, available)] + (if available then [] else [ResetTo(StartPosition(size, seek))])
      + [Probe(requested, atOnce)] + (if atOnce then [] else [Wait(requested, waited)])
    }
  }

  /** One ReadAt of an open stream and what it answered. */
  datatype Served = Served(seek: int, length: nat, path: Path, bytes: seq<byte>, outcome: ReadOutcome) {

    /** All that was asked of the buffer, with its answers; the read's answer is the buffer's own. */
    function Asked(size: nat): seq<BufferCall> {
      path.Asked(size, seek, length) + (if path.Ready() then [Fetch(seek, bytes, outcome)] else [])
    }

    /** A read that does not get to the buffer is an error. */
    predicate Sound() {
      !path.Ready() ==> bytes == [] && outcome == Failure
    }
  }

  class Stream {
    const url: string
    const size: nat
    const remote: seq<byte>               // the file the URL names
    ghost const ring: RingBuffer          // the buffer made by New

    var buffer: RingBuffer?
    var transfer: Transfer?
    var closed: bool
    var cancelled: bool                   // stream.ctx

    ghost var served: seq<Served>           // what ReadAt answered while the stream was open
    ghost var connections: set<Connection>  // every connection ever created
    ghost var Repr: set<object>

    ghost predicate Valid()
      reads this, Repr
      ensures Valid() ==> this in Repr
    {
      && this in Repr && ring in Repr && connections <= Repr
      && (buffer != null ==> buffer == ring)
      && ring.Valid() && ring.window.capacity == BufferSize(size)
      && Mirrors(ring.window, remote)
      && (transfer != null ==> HoldsTransfer(transfer))
      && (transfer == null && buffer != null ==> ring.window.data == [] && !ring.window.ended)
      && (!closed ==> buffer != null) && (closed ==> cancelled)
      && (ring.refused ==> closed && buffer != null)
      && (closed && !ring.refused ==> buffer == null)
      && (buffer == null ==> transfer == null)
      && OnlyCurrentOpen()
    }

    /** The stream's transfer feeds its buffer from its own connection to the remote file. */
    ghost predicate HoldsTransfer(t: Transfer)
      requires ring in Repr
      reads this, Repr
    {
      && t in Repr && t.source in Repr && t.Footprint() <= Repr && t.buffer == ring && t.Valid()
      && t.source in connections && t.source.remote == remote
      && (!closed ==> !t.closed && !t.cancelled)
    }

    /** At most one connection is open: the current transfer's. */
    ghost predicate OnlyCurrentOpen()
      requires connections <= Repr
      reads this, Repr
    {
      forall c | c in connections :: c.closed || (transfer != null && c == transfer.source)
    }

    /** New: stream/main.go:76-98. */
    constructor (url: string, size: nat, remote: seq<byte>)
      ensures Valid() && fresh(Repr)
      ensures !closed && buffer != null && transfer == null && connections == {}
      ensures this.url == url && this.size == size && this.remote == remote
      ensures ring.window == Fresh(BufferSize(size), 0) && ring.calls == [] && served == []
    {
      this.url, this.size, this.remote := url, size, remote;
      var b := new RingBuffer(BufferSize(size), 0);
      ring, buffer, transfer, closed, cancelled := b, b, null, false, false;
      connections, served := {}, [];
      new;
      Repr := {this, ring};
    }

    /** What the producer leaves as it is: it only adds to the window. */
    twostate predicate Produced()
      reads this, ring
    {
      && transfer == old(transfer) && connections == old(connections) && served == old(served) && closed == old(closed)
      && old(ring.window).GrowsTo(ring.window)
      && ring.calls == old(ring.calls) && ring.refused == old(ring.refused)
    }

    /** The current transfer's goroutines run for some turns of their loop, and `start` may finish. */
    method Produce()
      requires Valid() && !closed
      modifies Repr
      ensures Valid() && fresh(Repr - old(Repr)) && !closed && Produced()
    {
      if transfer == null {
        return;
      }
      var turns: nat := *;
      var buf := new byte[P.CHUNK_SIZE];
      while turns > 0 && transfer.done == []
        invariant Valid() && fresh(Repr - old(Repr)) && !closed && buf !in Repr
        invariant transfer != null && Produced()
        decreases turns
      {
        Turn(transfer, buf);
        turns := turns - 1;
      }
      if transfer.done != [] {
        Finish(transfer);
      }
    }

    /** One turn of the current transfer's copy loop, seen from the stream. */
    method Turn(t: Transfer, buf: array<byte>)
      requires Valid() && !closed && transfer == t && t.done == [] && buf !in Repr && buf.Length > 0
      modifies Repr, buf
      ensures Valid() && fresh(Repr - old(Repr)) && !closed && buf !in Repr
      ensures transfer == t && Produced()
    {
      t.CopyTurn(buf);
      Repr := Repr + t.source.Footprint();
      PrefixOfBodyIsSlice(remote, t.source.startPosition, ring.window.data);
    }

    method Finish(t: Transfer)
      requires Valid() && !closed && transfer == t && t.done != []
      modifies Repr
      ensures Valid() && Repr == old(Repr) && !closed
      ensures transfer == t && Produced()
    {
      if * {
        t.FinishStart(true);
      }
    }

    /** WaitForPosition: the producer runs meanwhile. */
    method WaitForPosition(position: int) returns (ok: bool)
      requires Valid() && !closed
      modifies Repr
      ensures Valid() && fresh(Repr - old(Repr)) && !closed
      ensures transfer == old(transfer) && connections == old(connections) && served == old(served)
      ensures old(ring.window).GrowsTo(ring.window) && ring.calls == old(ring.calls) + [Wait(position, ok)]
      ensures ok ==> ring.window.MayOffer(position)
    {
      Produce();
      ok := buffer.WaitForPosition(position);
    }

    /** Either the window kept its place and its transfer, and has the seek position; or it was placed for `seek` and
        filled from a new connection, the only one made. */
    twostate predicate Sought(seek: int)
      requires transfer != null
      reads this, ring
    {
      if transfer == old(transfer) then
        && connections == old(connections) && ring.window.base == old(ring.window.base)
        && ring.window.(low := old(ring.window.low)).MayOffer(seek)
      else
        && connections == old(connections) + {transfer.source} && transfer.source !in old(connections)
        && ring.window.base == StartPosition(size, seek)
    }

    /** The first half of ReadAt: seek when the window does not offer the position. */
    method Seek(seek: int) returns (available: bool)
      requires Valid() && !closed
      modifies Repr
      ensures Valid() && fresh(Repr - old(Repr)) && !closed && served == old(served)
      ensures transfer != null && Sought(seek) && (transfer == old(transfer) <==> available)
      ensures available ==> ring.window.low == old(ring.window.low)
      ensures ring.calls == old(ring.calls) + [Probe(seek, available)]
                            + if available then [] else [ResetTo(StartPosition(size, seek))]
    {
      Produce();
      available := buffer.IsPositionAvailable(seek);
      if !available {
        var ok := NewTransfer(seek);
        assert ok;
      }
    }

    /** The second half but its last line: wait when the window does not offer the requested position. */
    method Await(requested: int) returns (ok: bool, ghost atOnce: bool, ghost waited: bool)
      requires Valid() && !closed
      modifies Repr
      ensures Valid() && fresh(Repr - old(Repr)) && !closed && served == old(served)
      ensures transfer == old(transfer) && connections == old(connections) && old(ring.window).GrowsTo(ring.window)
      ensures ok == (atOnce || waited)
      ensures ring.calls == old(ring.calls) + [Probe(requested, atOnce)]
                            + if atOnce then [] else [Wait(requested, waited)]
      ensures ok ==> ring.window.MayOffer(requested)
    {
      ok := buffer.IsPositionAvailable(requested);
      atOnce, waited := ok, false;
      if !ok {
        ok := WaitForPosition(requested);
        waited := ok;
        // Only a concurrent Close lets a failed wait through; StreamSystem has that case.
        ok := ok || closed;
      }
    }

    /** ReadAt up to its last line. */
    method Prepare(seek: int, length: nat) returns (ok: bool, ghost path: Path)
      requires Valid() && !closed
      modifies Repr
      ensures Valid() && fresh(Repr - old(Repr)) && !closed && served == old(served)
      ensures transfer != null && Sought(seek) && (transfer == old(transfer) <==> path.available)
      ensures path.available ==> ring.window.low == old(ring.window.low)
      ensures ok == path.Ready() && ring.calls == old(ring.calls) + path.Asked(size, seek, length)
      ensures ok ==> ring.window.MayOffer(RequestedPosition(size, seek, length))
    {
      var available := Seek(seek);
      ghost var atOnce, waited;
      ok, atOnce, waited := Await(RequestedPosition(size, seek, length));
      path := Path(available, atOnce, waited);
    }

    /** ReadAt: the bytes returned are the remote file's bytes at the offset asked for, whatever was read,
        sought or produced before, and they are what the buffer answered to the one read made of it. */
    method ReadAt(p: array<byte>, seek: int) returns (n: nat, outcome: ReadOutcome)
      requires Valid() && p !in Repr
      modifies Repr, p
      ensures Valid() && fresh(Repr - old(Repr)) && p !in Repr
      ensures n <= p.Length && IsSliceAt(remote, seek, p[..n])
      ensures closed == old(closed) && ring.refused == old(ring.refused)
      ensures old(closed) ==> n == 0 && outcome == Failure && Repr == old(Repr) && served == old(served)
      ensures !old(closed) ==> transfer != null && Sought(seek)
      ensures !old(closed) ==>
                && |served| == |old(served)| + 1 && old(served) <= served
                && var r := served[|old(served)|];
                   && r == Served(seek, p.Length, r.path, p[..n], outcome) && r.Sound()
                   && ring.calls == old(ring.calls) + r.Asked(size)
                   && (r.path.available <==> transfer == old(transfer))
      ensures outcome == Success && p.Length > 0 ==> n > 0
      ensures outcome == EndOfFile ==> ring.window.ended && seek + n >= ring.window.High()
    {
      hide HoldsTransfer, OnlyCurrentOpen, Mirrors;
      if closed || buffer == null {
        return 0, Failure;
      }
      var ok;
      ghost var path;
      ok, path := Prepare(seek, p.Length);
      if !ok {
        Record(Served(seek, p.Length, path, p[..0], Failure));
        return 0, Failure;
      }
      n, outcome := Take(p, seek);
      Record(Served(seek, p.Length, path, p[..n], outcome));
    }

    ghost method Record(r: Served)
      requires Valid()
      modifies this`served
      ensures Valid() && served == old(served) + [r]
    {
      served := served + [r];
    }

    /** Its last line. */
    method Take(p: array<byte>, seek: int) returns (n: nat, outcome: ReadOutcome)
      requires Valid() && !closed && p !in Repr
      modifies ring`window, ring`calls, p
      ensures Valid() && n <= p.Length && IsSliceAt(remote, seek, p[..n])
      ensures ring.calls == old(ring.calls) + [Fetch(seek, p[..n], outcome)]
      ensures ring.window == old(ring.window).(low := ring.window.low)
      ensures outcome == Success && p.Length > 0 ==> n > 0
      ensures outcome == EndOfFile ==> ring.window.ended && seek + n >= ring.window.High()
    {
      ghost var before := ring.window;
      n, outcome := buffer.ReadAt(p, seek);
      ReadOfMirror(before, remote, seek, p.Length, p[..n], ring.window);
    }

    /** newTransfer: the old connection is closed and dropped, the window emptied and placed, and a new
        connection to the window's start takes over. */
    method NewTransfer(seek: int) returns (ok: bool)
      requires Valid() && !closed
      modifies Repr
      ensures Valid() && fresh(Repr - old(Repr)) && !closed
      ensures ok && transfer != null && transfer != old(transfer) && !transfer.source.closed
      ensures ring.window == old(ring.window).Reset(StartPosition(size, seek)) && served == old(served)
      ensures ring.calls == old(ring.calls) + [ResetTo(StartPosition(size, seek))]
      ensures transfer.source.startPosition == ring.window.base
      ensures connections == old(connections) + {transfer.source} && transfer.source !in old(connections)
      ensures old(transfer) != null ==> old(transfer).source.closed
    {
      if transfer != null {
        transfer.Close();
        transfer := null;
      }
      var connection := Connection.NewConnection(url, remote, StartPosition(size, seek));
      if connection == null {
        assert false;
        return false;
      }
      buffer.ResetToPosition(StartPosition(size, seek));
      StartTransfer(connection);
      ok := true;
    }

    /** stream.transfer = transfer.NewTransfer(stream.buffer, connection) */
    method StartTransfer(connection: Connection)
      requires Valid() && !closed && transfer == null
      requires connection.Valid() && !connection.closed && connection.delivered == []
               && connection.Footprint() == {connection}
      requires connection !in Repr && connection.remote == remote
      requires ring.window.base == connection.startPosition && ring.window.data == []
      modifies this`transfer, this`connections, this`Repr
      ensures Valid() && fresh(Repr - old(Repr) - {connection}) && !closed
      ensures transfer != null && fresh(transfer) && transfer.source == connection
      ensures connections == old(connections) + {connection} && unchanged(ring)
    {
      var t := new Transfer(buffer, connection);
      transfer := t;
      connections := connections + {connection};
      Repr := Repr + {t, connection};
    }

    /** Close.  It fails exactly when the buffer refuses to close; then the code returns early and leaves the transfer
        running.  Otherwise every connection the stream ever created is closed. */
    method Close() returns (ok: bool)
      requires Valid()
      modifies Repr
      ensures Valid() && Repr == old(Repr) && closed && cancelled && connections == old(connections)
      ensures old(closed) ==> ok && buffer == old(buffer) && transfer == old(transfer)
      ensures !old(closed) ==> (ok <==> !ring.refused)
      ensures !ring.refused ==> buffer == null && transfer == null && forall c | c in connections :: c.closed
      ensures ring.calls == old(ring.calls) && served == old(served)
    {
      if closed {
        return true;
      }
      closed := true;
      cancelled := true;
      if buffer != null {
        ok := buffer.Close();
        if !ok {
          return false;
        }
        buffer := null;
      }
      if transfer != null {
        transfer.Close();
        transfer := null;
      }
      ok := true;
    }
  }
}
