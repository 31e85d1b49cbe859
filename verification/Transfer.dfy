/**
 stream/transfer/main.go as sequential code.  The goroutines' interleavings are TransferProtocol's;
 here a schedule decides on which turn of the copy loop a Close is noticed.
 */
module Transfers {
  import opened Base
  import opened WindowContract
  import opened RingBuffers
  import opened Connections
  import P = TransferProtocol

  class Transfer {
    const buffer: RingBuffer
    ghost const source: Connection  // the connection given to NewTransfer

    var connection: Connection?
    var cancelled: bool             // transfer.context
    var closed: bool
    var done: seq<P.Result>         // what copyData sent on its channel
    var marked: bool                // start has written its end marker

    ghost function Footprint(): set<object>
      reads this, source
    {
      {this} + source.Footprint()
    }

    ghost predicate Valid()
      reads this, source, source.body, buffer
    {
      && source.Valid() && buffer.Valid()
      && (connection != null ==> connection == source)
      && (connection == null ==> cancelled)
      && (cancelled ==> source.closed)
      && (closed ==> cancelled)
      && |done| <= 1
      && Faithful() && Reasoned()
    }

    /** The result sent is the one that what happened last calls for. */
    ghost predicate Reasoned()
      reads this, source, buffer
    {
      done != [] ==>
        match done[0]
        case Canceled => cancelled
        case Finished => source.answer == EndOfBody
        case ReadFailed => source.answer == Broken
        case WriteFailed => buffer.writeFailed
    }

    /** The buffer holds, from the connection's start on, the bytes read so far in order: all of them
        unless a write failed. */
    ghost predicate Faithful()
      reads this, source, source.body, buffer
    {
      && buffer.window.base == source.startPosition
      && buffer.window.data <= source.delivered
      && (done != [P.WriteFailed] ==> buffer.window.data == source.delivered)
      && (done == [P.Finished] ==> source.delivered == source.Promised())
    }

    constructor (buffer: RingBuffer, connection: Connection)
      requires buffer.Valid() && connection.Valid() && !connection.closed && connection.delivered == []
      requires buffer.window.base == connection.startPosition && buffer.window.data == []
      ensures Valid() && this.buffer == buffer && source == connection
      ensures !closed && !cancelled && done == [] && !marked && this.connection == connection
    {
      this.buffer, this.source, this.connection := buffer, connection, connection;
      cancelled, closed, done, marked := false, false, [], false;
    }

    /** The body of copyData's loop once it has found the context alive. */
    method CopyTurn(buf: array<byte>)
      requires Valid() && done == [] && connection != null && buf.Length > 0
      modifies this`done, source`body, source`responses, source`delivered, source`answer, source.body
      modifies buffer`window, buffer`writeFailed, buf
      ensures Valid() && fresh(source.Footprint() - old(source.Footprint()))
      ensures |source.delivered| >= |old(source.delivered)|
      ensures done == if |source.delivered| > |old(source.delivered)| && buffer.writeFailed then [P.WriteFailed]
                      else match source.answer {
                             case NoError => []
                             case EndOfBody => [P.Finished]
                             case Broken => [P.ReadFailed]
                           }
      ensures !source.closed ==> |source.delivered| > |old(source.delivered)| || source.answer != NoError
      ensures source.closed ==> source.answer == NoError && source.delivered == old(source.delivered)
      ensures old(buffer.window).GrowsTo(buffer.window)
    {
      var n, error := connection.Read(buf);
      if n > 0 {
        assert buf[..n] == source.delivered[|old(source.delivered)|..];
        var written, failed := buffer.Write(buf, n);
        assert source.delivered == old(source.delivered) + buf[..n];
        P.PartOfChunk(old(source.delivered), buf[..n], written);
        if failed {
          done := done + [P.WriteFailed];
          assert done[0] == P.WriteFailed;
          return;
        }
      }
      if error != NoError {
        var result := if error == EndOfBody then P.Finished else P.ReadFailed;
        done := done + [result];
        assert done[0] == result;
      }
    }

    /** copyData, under any schedule of one Close: the connection is found closed from turn `closeAt` on and
        the context cancelled from turn `cancelAt` on, in Close's order; or there is no Close at all.
        The loop ends, it sends exactly one result, and what it wrote is what it read. */
    method CopyData(closeAt: Option<nat>, cancelAt: Option<nat>)
      requires Valid() && done == [] && connection != null && !source.closed
      requires closeAt.Some? <==> cancelAt.Some?
      requires closeAt.Some? ==> closeAt.value <= cancelAt.value
      modifies this`done, this`cancelled, source.Footprint(), buffer`window, buffer`writeFailed
      ensures Valid() && fresh(source.Footprint() - old(source.Footprint()))
      ensures |done| == 1
      ensures done == [P.Finished] ==> buffer.window.data == source.Promised()
      ensures done != [P.WriteFailed] ==> buffer.window.data == source.delivered
      ensures cancelAt.None? ==> done != [P.Canceled] && !cancelled
    {
      var buf := new byte[P.CHUNK_SIZE];
      var turn := 0;
      while true
        invariant Valid() && fresh(source.Footprint() - old(source.Footprint())) && connection == source
        invariant done == [] && !cancelled && buf !in source.Footprint()
        invariant source.closed <==> closeAt.Some? && closeAt.value < turn
        invariant cancelAt.Some? ==> turn <= cancelAt.value
        decreases if source.closed then 0 else 1 + |source.Promised()| - |source.delivered|,
                  if cancelAt.Some? then cancelAt.value - turn else 0
      {
        if closeAt == Some(turn) {
          var _ := connection.Close();
        }
        if cancelAt == Some(turn) {
          cancelled := true;
        }
        if cancelled {
          done := done + [P.Canceled];
          assert done[0] == P.Canceled;
          return;
        }
        CopyTurn(buf);
        if done != [] {
          return;
        }
        turn := turn + 1;
      }
    }

    /** What `start` does once its select has returned. */
    method FinishStart(byResult: bool)
      requires Valid() && (byResult ==> done != []) && (!byResult ==> cancelled)
      modifies this`connection, this`marked, buffer`window, source`closed, source`cancelled, source`body, source.body
      ensures Valid() && marked
      ensures source.closed == (old(source.closed) || !byResult) && source.Footprint() <= old(source.Footprint())
      ensures source.delivered == old(source.delivered) && (!byResult ==> connection == null)
      ensures if old(marked) then buffer.window == old(buffer.window) else old(buffer.window).Marked(buffer.window)
    {
      if !byResult && connection != null {
        var _ := connection.Close();
        connection := null;
      }
      if !marked {
        buffer.WriteEndMarker();
        marked := true;
      }
    }

    /** Close by its winner, taken as one action: afterwards the connection is closed and, by the assumption
        TransferRuns.AtMostOneLateWrite puts a bound on, copyData writes no more. */
    method Close()
      requires Valid()
      modifies this`closed, this`cancelled, this`connection, this`marked, buffer`window,
               source`closed, source`cancelled, source`body, source.body
      ensures Valid() && closed && source.closed && source.Footprint() <= old(source.Footprint())
      ensures source.delivered == old(source.delivered)
      ensures buffer.window == old(buffer.window).(ended := buffer.window.ended)
    {
      if closed {
        return;
      }
      closed := true;
      if connection != null {
        var _ := connection.Close();
      }
      cancelled := true;
      // wg.Wait(): start may have finished or not begun, or it finishes now.
      if * {
        FinishStart(false);
      }
    }
  }
}
