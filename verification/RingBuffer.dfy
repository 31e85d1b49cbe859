/**
 A stand-in for the external ring buffer, so that the sequential code below has an object to call.
 Only the contracts matter: they are WindowContract's, and callers rely on nothing else.  The
 bodies show that the contracts can be met.  The ghost fields record what was asked of the buffer and what it
 answered, so that callers can be held to having asked and to having heeded the answer.
 */
module RingBuffers {
  import opened Base
  import opened WindowContract

  /** How a read of the buffer ends: err == nil, io.EOF, or any other error. */
  datatype ReadOutcome = Success | EndOfFile | Failure

  /** One call that a reader made of the buffer, with its answer. */
  datatype BufferCall =
    | Probe(position: int, yes: bool)
    | Wait(position: int, yes: bool)
    | Fetch(position: int, bytes: seq<byte>, outcome: ReadOutcome)
    | ResetTo(base: nat)

  class RingBuffer {
    var window: Window
    ghost var calls: seq<BufferCall>
    ghost var writeFailed: bool  // the last Write failed
    ghost var refused: bool      // a Close failed

    ghost predicate Valid() reads this { window.Valid() }

    constructor (capacity: nat, position: nat)
      ensures Valid() && window == Fresh(capacity, position)
      ensures calls == [] && !writeFailed && !refused
    {
      window := Fresh(capacity, position);
      calls, writeFailed, refused := [], false, false;
    }

    method IsPositionAvailable(position: int) returns (yes: bool)
      modifies this`calls
      ensures calls == old(calls) + [Probe(position, yes)]
      ensures yes ==> window.MayOffer(position)
    {
      yes := window.MayOffer(position);
      calls := calls + [Probe(position, yes)];
    }

    /** The answer after the wait; false is a timeout. */
    method WaitForPosition(position: int) returns (yes: bool)
      modifies this`calls
      ensures calls == old(calls) + [Wait(position, yes)]
      ensures yes ==> window.MayOffer(position)
    {
      yes := window.MayOffer(position);
      calls := calls + [Wait(position, yes)];
    }

    method Write(chunk: array<byte>, count: nat) returns (n: nat, failed: bool)
      requires Valid() && count <= chunk.Length
      modifies this`window, this`writeFailed
      ensures Valid() && old(window).Written(chunk[..count], n, failed, window)
      ensures writeFailed == failed
    {
      failed := window.closed;
      if * { failed := true; }
      n := if failed then 0 else Min(count, window.capacity - (window.High() - window.low));
      failed := failed || n < count;
      assert chunk[..count][..n] == chunk[..n];
      window := window.(data := window.data + chunk[..n]);
      writeFailed := failed;
    }

    method WriteEndMarker()
      requires Valid()
      modifies this`window
      ensures Valid() && old(window).Marked(window)
    {
      if !window.closed {
        window := window.(ended := true);
      }
    }

    /** Held bytes or an error: without an error there is a byte, if one was asked for, and the end of the file is
        answered only at the high end of a window that has its end marker. */
    method ReadAt(p: array<byte>, position: int) returns (n: nat, outcome: ReadOutcome)
      requires Valid()
      modifies this`window, this`calls, p
      ensures Valid() && n <= p.Length && old(window).Read(position, p.Length, p[..n], window)
      ensures calls == old(calls) + [Fetch(position, p[..n], outcome)]
      ensures outcome == Success && p.Length > 0 ==> n > 0
      ensures outcome == EndOfFile ==> window.ended && position + n >= window.High()
    {
      n := 0;
      outcome := if window.ended && position == window.High() then EndOfFile else Failure;
      if window.Holds(position) && !window.closed {
        n := Min(p.Length, window.High() - position);
        outcome := Success;
        forall i | 0 <= i < n { p[i] := window.data[position - window.base + i]; }
        assert p[..n] == window.data[position - window.base..position - window.base + n];
      }
      calls := calls + [Fetch(position, p[..n], outcome)];
    }

    method ResetToPosition(position: nat)
      modifies this`window, this`calls
      ensures Valid() && window == old(window).Reset(position)
      ensures calls == old(calls) + [ResetTo(position)]
    {
      window := window.Reset(position);
      calls := calls + [ResetTo(position)];
    }

    method Close() returns (ok: bool)
      requires Valid()
      modifies this`window, this`refused
      ensures Valid() && window == old(window).(closed := window.closed)
      ensures ok ==> window.closed
      ensures refused == !ok
    {
      window := window.(closed := true);
      ok := true;
      if * { ok := false; }
      refused := !ok;
    }
  }
}
