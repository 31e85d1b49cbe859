/** Concrete runs showing that the bounds of TransferRuns are reached. */
module TransferWitnesses {
  import opened Base
  import opened TransferProtocol
  import opened TransferRuns

  function At(x: Transfer, start: StartPc, copy: CopyPc, close: ClosePc): Transfer {
    x.(startPc := start, copyPc := copy, closePc := close)
  }

  /** The run extended by one step. */
  lemma Then(xs: seq<Transfer>, es: seq<Event>, e: Event, y: Transfer) returns (ys: seq<Transfer>, fs: seq<Event>)
    requires IsFullRun(xs, es) && Step(xs[|es|], e, y)
    ensures ys == xs + [y] && fs == es + [e]
    ensures IsFullRun(ys, fs)
    ensures Chunks(fs) == Chunks(es) + Chunks([e])
  {
    ys, fs := xs + [y], es + [e];
    forall k | 0 <= k < |fs| ensures Step(ys[k], fs[k], ys[k + 1]) {
      if k < |es| {
        assert Step(xs[k], es[k], xs[k + 1]);
      }
    }
    ChunksOfSum(es, [e]);
  }

  lemma {:induction false} ChunksOfSum(es: seq<Event>, fs: seq<Event>)
    ensures Chunks(es + fs) == Chunks(es) + Chunks(fs)
  {
    if es == [] {
      assert es + fs == fs;
    } else {
      assert (es + fs)[1..] == es[1..] + fs;
      ChunksOfSum(es[1..], fs);
    }
  }

  /** A transfer whose goroutines are up, with `copyData` about to load the connection. */
  lemma RunToLoad(body: seq<byte>) returns (xs: seq<Transfer>, es: seq<Event>)
    ensures IsFullRun(xs, es) && xs[0] == NewTransfer(0, body, true)
    ensures xs[|es|] == At(NewTransfer(0, body, true).(waiting := 1), Select, Load, CloseNone)
  {
    var x := NewTransfer(0, body, true);
    xs, es := [x], [];
    var y := x.(startPc := Spawn, waiting := 1);
    xs, es := Then(xs, es, Silent, y);
    y := y.(startPc := Select, copyPc := Head);
    xs, es := Then(xs, es, Silent, y);
    y := y.(copyPc := Load);
    xs, es := Then(xs, es, Silent, y);
  }

  /** `Close` runs up to its wait. */
  lemma RunCloseToWait(xs: seq<Transfer>, es: seq<Event>) returns (ys: seq<Transfer>, fs: seq<Event>)
    requires IsFullRun(xs, es)
    requires var x := xs[|es|]; !x.crashed && x.closePc.CloseNone? && x.hasConnection
    ensures IsFullRun(ys, fs) && Chunks(fs) == Chunks(es) && xs <= ys && es <= fs
    ensures ys[|fs|] == xs[|es|].(closePc := CloseWait, connectionClosed := true, cancelled := true)
  {
    var y := xs[|es|].(closePc := CloseConn);
    ys, fs := Then(xs, es, Silent, y);
    y := y.(closePc := CloseCancel, connectionClosed := true);
    ys, fs := Then(ys, fs, Silent, y);
    y := y.(closePc := CloseWait, cancelled := true);
    ys, fs := Then(ys, fs, Silent, y);
  }

  /** `start` takes the cancellation branch and writes its marker. */
  lemma RunToMarked(xs: seq<Transfer>, es: seq<Event>) returns (ys: seq<Transfer>, fs: seq<Event>)
    requires IsFullRun(xs, es)
    requires var x := xs[|es|];
             !x.crashed && x.startPc.Select? && x.cancelled && x.hasConnection && x.hasBuffer && x.waiting == 1
    ensures IsFullRun(ys, fs) && Chunks(fs) == Chunks(es) && xs <= ys && es <= fs
    ensures ys[|fs|] == xs[|es|].(startPc := Left(false), connectionClosed := true, hasConnection := false,
                                  marks := xs[|es|].marks + 1, waiting := 0)
  {
    var y := xs[|es|].(startPc := CloseConnection);
    ys, fs := Then(xs, es, Silent, y);
    y := y.(startPc := DropConnection, connectionClosed := true);
    ys, fs := Then(ys, fs, Silent, y);
    y := y.(startPc := Mark(false), hasConnection := false);
    ys, fs := Then(ys, fs, Silent, y);
    y := y.(startPc := Leave(false), marks := y.marks + 1);
    ys, fs := Then(ys, fs, MarkWrite, y);
    y := y.(startPc := Left(false), waiting := 0);
    ys, fs := Then(ys, fs, Silent, y);
  }

  /** `Close` waits, `start` marks and leaves, `Close` returns; `copyData` stays where it is. */
  lemma RunCloseAndMark(xs: seq<Transfer>, es: seq<Event>) returns (ys: seq<Transfer>, fs: seq<Event>)
    requires IsFullRun(xs, es)
    requires var x := xs[|es|];
             !x.crashed && x.startPc.Select? && x.closePc.CloseNone? && x.hasConnection && x.hasBuffer && x.waiting == 1
    ensures IsFullRun(ys, fs) && xs <= ys && Chunks(fs) == Chunks(es)
    ensures ys[|fs|] == At(xs[|es|].(connectionClosed := true, cancelled := true, hasConnection := false, waiting := 0,
                                     marks := xs[|es|].marks + 1),
                           Left(false), xs[|es|].copyPc, CloseReturned)
  {
    ys, fs := RunCloseToWait(xs, es);
    ys, fs := RunToMarked(ys, fs);
    var y := ys[|fs|].(closePc := CloseReturned);
    ys, fs := Then(ys, fs, Silent, y);
  }

  /** "The connection that `copyData` loads is never nil" is false: a Close between the loop head and
      the load makes it nil. */
  lemma NilLoadReachable(body: seq<byte>)
    ensures exists xs: seq<Transfer>, es: seq<Event> :: IsFullRun(xs, es) && xs[0].body == body && xs[|es|].crashed
  {
    var xs, es := RunToLoad(body);
    xs, es := RunCloseAndMark(xs, es);
    var y := CrashOf(xs[|es|]);
    xs, es := Then(xs, es, Crash, y);
  }

  predicate ReturnedAt(xs: seq<Transfer>, k: nat) {
    k < |xs| && xs[k].closePc.CloseReturned?
  }

  lemma RunToLateChunk(body: seq<byte>) returns (xs: seq<Transfer>, es: seq<Event>, k: nat)
    requires body != []
    ensures IsFullRun(xs, es) && xs[0].body == body && ReturnedAt(xs, k) && k <= |es|
    ensures Chunks(es[k..]) == 1 && xs[|es|].written == body[..1]
  {
    xs, es := RunToLoad(body);
    var y := xs[|es|].(copyPc := Reading);
    xs, es := Then(xs, es, ReadCall, y);
    y := y.(position := 1, copyPc := Writing(body[0..1], NoError));
    xs, es := Then(xs, es, ReadReturn(1, NoError), y);
    xs, es := RunCloseAndMark(xs, es);
    k := |es|;
    y := xs[k].(written := [] + body[0..1][..1], copyPc := Head);
    xs, es := Then(xs, es, ChunkWrite(1, false), y);
    assert es[k..] == [ChunkWrite(1, false)];
    assert [ChunkWrite(1, false)][1..] == [];
  }

  /** A chunk can be written after the winning Close has returned: `copyData` had it in hand. */
  lemma LateChunkReachable(body: seq<byte>)
    requires body != []
    ensures exists xs: seq<Transfer>, es: seq<Event>, k: nat ::
              IsFullRun(xs, es) && xs[0].body == body && ReturnedAt(xs, k) && k <= |es|
              && Chunks(es[k..]) == 1 && xs[|es|].written == body[..1]
  {
    var xs, es, k := RunToLateChunk(body);
    assert ReturnedAt(xs, k);
  }

  /** So can the end marker: the wait finds the counter still zero because `start`, which does the
      wg.Add itself, has not begun. */
  lemma LateMarkReachable(body: seq<byte>)
    ensures exists xs: seq<Transfer>, es: seq<Event>, k: nat ::
              IsFullRun(xs, es) && xs[0].body == body && ReturnedAt(xs, k) && k <= |es| && Marks(es[k..]) == 1
  {
    var y := NewTransfer(0, body, true);
    var xs, es := RunCloseToWait([y], []);
    y := xs[|es|].(closePc := CloseReturned);
    xs, es := Then(xs, es, Silent, y);
    var k := |es|;
    assert xs[k] == y;
    var y1 := y.(startPc := Spawn, waiting := 1);
    var zs, fs := Then(xs, es, Silent, y1);
    zs, fs := Then(zs, fs, Silent, y1.(startPc := Select, copyPc := Head));
    zs, fs := RunToMarked(zs, fs);
    assert zs[k] == xs[k];
    TailIsRun(zs, fs, k);
    RunSpendsMarks(zs[k..], fs[k..]);
    assert ReturnedAt(zs, k);
  }
}
