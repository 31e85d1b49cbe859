/** Runs in which Close overlaps a ReadAt and something goes wrong, for every file and every read. */
module StreamCrashRuns {
  import opened Base
  import opened WindowContract
  import opened Placement
  import opened TransferProtocol
  import opened StreamSystem
  import opened StreamRuns
  import opened StreamSteps
  import opened StreamStale
  import opened StreamMarks
  import opened StreamCrashes

  // ----- Close under a reader -----

  lemma RunToProbe(env: Env, q: Query) returns (ss: seq<System>, acts: seq<Action>)
    ensures IsSystemRun(env, ss, acts) && ss[|acts|] == NewSystem(env).(reader := ProbeSeek(q))
  {
    var s := NewSystem(env);
    ss, acts := Then(env, [s], [], Reader(Ask(q)), s.(reader := TestClosed(q)));
    ss, acts := Then(env, ss, acts, Reader(Go), s.(reader := TestBuffer(q)));
    ss, acts := Then(env, ss, acts, Reader(Go), s.(reader := ProbeSeek(q)));
  }

  /** "ReadAt never loads a nil buffer" is false: a Close that runs between its nil test and its first use of
      the field crashes it. */
  lemma CloseUnderReaderCrashes(env: Env, q: Query)
    ensures exists ss: seq<System>, acts: seq<Action> ::
              IsSystemRun(env, ss, acts) && ss[|acts|].crashed && ss[|acts|].reader == ProbeSeek(q)
  {
    var ss, acts := RunToProbe(env, q);
    var s := ss[|acts|].(closed := true, closer := CancelContext);
    ss, acts := Then(env, ss, acts, Closer(Go), s);
    ss, acts := Then(env, ss, acts, Closer(Go), s.(closer := LookAtBuffer));
    ss, acts := Then(env, ss, acts, Closer(Go), s.(closer := CloseBuffer));
    s := s.(window := s.window.(closed := true), closer := DropBuffer);
    ss, acts := Then(env, ss, acts, Closer(Says(true)), s);
    s := s.(hasBuffer := false, closer := LookAtTransfer);
    ss, acts := Then(env, ss, acts, Closer(Go), s);
    ss, acts := Then(env, ss, acts, Reader(Go), Crashed(s));
  }

  // ----- a transfer without a buffer -----

  /** Close nils the buffer just before ReadAt starts its transfer. */
  lemma RunToNilTransfer(env: Env, q: Query) returns (ss: seq<System>, acts: seq<Action>)
    ensures IsSystemRun(env, ss, acts)
    ensures var s := ss[|acts|];
            && s.window.Valid() && !s.crashed && s.transfers == [TransferFor(env, q, false)] && s.closer.LookAtTransfer?
  {
    hide StepAt;
    ss, acts := RunToStart(env, q);
    ss, acts := CloserDropsBuffer(env, ss, acts);
    var s := ss[|acts|];
    var t := s.(transfers := [TransferFor(env, q, false)], current := Some(0), owner := Some(0), reader := ProbeEnd(q));
    ss, acts := Then(env, ss, acts, Reader(Go), t);
  }

  /** `start` dereferences the nil buffer when it comes to write its end marker. */
  lemma StartCrashesOnNilBuffer(env: Env, q: Query)
    ensures exists ss: seq<System>, acts: seq<Action> ::
              IsSystemRun(env, ss, acts) && acts != [] && acts[|acts| - 1] == Starter(0, Crash) && ss[|acts|].crashed
  {
    hide StepAt;
    var ss, acts := RunToNilTransfer(env, q);
    ss, acts := TransferComesUp(env, ss, acts, 0);
    ss, acts := ReadFails(env, ss, acts);
    var s := ss[|acts|];
    var x := s.transfers[0].(startPc := Mark(true), channel := None);
    ss, acts := Then(env, ss, acts, Starter(0, Silent), SetTransfer(s, 0, x));
    ss, acts := Extend(env, ss, acts, Starter(0, Crash), SetTransfer(s, 0, CrashOf(x)).(crashed := true));
  }

  lemma ReadFails(env: Env, ss: seq<System>, acts: seq<Action>) returns (ts: seq<System>, bcts: seq<Action>)
    requires IsSystemRun(env, ss, acts)
    requires var s := ss[|acts|];
             && s.window.Valid() && !s.crashed && |s.transfers| == 1
             && var x := s.transfers[0];
                x.copyPc.Reading? && x.startPc.Select? && x.channel.None? && !x.crashed && !x.hasBuffer
                && x.position == 0
    ensures IsSystemRun(env, ts, bcts)
    ensures var s := ss[|acts|];
            var x := s.transfers[0];
            var y := x.(copyPc := Exit(ReadFailed), sent := x.sent + 1, channel := Some(ReadFailed));
            ts[|bcts|] == SetTransfer(s, 0, y)
  {
    hide StepAt;
    var s := ss[|acts|];
    var x := s.transfers[0].(copyPc := Send(ReadFailed));
    ts, bcts := Then(env, ss, acts, Copier(0, ReadReturn(0, Broken)), SetTransfer(s, 0, x));
    x := x.(copyPc := Exit(ReadFailed), sent := x.sent + 1, channel := Some(ReadFailed));
    ts, bcts := Then(env, ts, bcts, Copier(0, Silent), SetTransfer(s, 0, x));
  }

  /** So does `copyData`, when the body has a byte for it. */
  lemma CopyCrashesOnNilBuffer(env: Env, q: Query)
    requires StartPosition(env.size, q.seek) < |env.remote|
    ensures exists ss: seq<System>, acts: seq<Action> ::
              IsSystemRun(env, ss, acts) && acts != [] && acts[|acts| - 1] == Copier(0, Crash) && ss[|acts|].crashed
  {
    hide StepAt;
    var ss, acts := RunToNilTransfer(env, q);
    ss, acts := TransferComesUp(env, ss, acts, 0);
    var s := ss[|acts|];
    var body := s.transfers[0].body;
    var x := s.transfers[0].(position := 1, copyPc := Writing(body[0..1], NoError));
    ss, acts := Then(env, ss, acts, Copier(0, ReadReturn(1, NoError)), SetTransfer(s, 0, x));
    ss, acts := Extend(env, ss, acts, Copier(0, Crash), SetTransfer(s, 0, CrashOf(x)).(crashed := true));
  }

  // ----- a connection left open -----

  /** Close looks at `stream.transfer` between ReadAt's reset and its start of a transfer, and returns; the new
      connection stays open. */
  lemma ConnectionLeftOpen(env: Env, q: Query)
    ensures exists ss: seq<System>, acts: seq<Action> ::
              IsSystemRun(env, ss, acts) && ss[|acts|].closer == Done(true) && !AllClosed(ss[|acts|])
  {
    hide StepAt;
    var ss, acts := RunToStart(env, q);
    ss, acts := CloserDropsBuffer(env, ss, acts);
    var s := ss[|acts|].(closer := Done(true));
    ss, acts := Then(env, ss, acts, Closer(Go), s);
    var t := s.(transfers := [TransferFor(env, q, false)], current := Some(0), owner := Some(0), reader := ProbeEnd(q));
    ss, acts := Then(env, ss, acts, Reader(Go), t);
    assert !ss[|acts|].transfers[0].connectionClosed;
  }

  // ----- the next read closes a transfer that has not begun -----

  /** The first transfer, closed before its `start` has begun. */
  function ClosedUnbegun(env: Env, q: Query): Transfer {
    TransferFor(env, q, true).(closePc := CloseReturned, connectionClosed := true, cancelled := true)
  }

  /** A read has timed out; the next one has closed its transfer and is about to drop it. */
  function AtDrop(env: Env, q: Query, r: Query): System {
    NewSystem(env).(reader := DropTransfer(r), answers := [Answer(q, [])],
                    window := Fresh(BufferSize(env.size), StartPosition(env.size, q.seek)),
                    transfers := [ClosedUnbegun(env, q)], current := Some(0), owner := Some(0))
  }

  lemma RunToCallClose(env: Env, q: Query, r: Query) returns (ss: seq<System>, acts: seq<Action>)
    ensures IsSystemRun(env, ss, acts)
    ensures ss[|acts|] == AtDrop(env, q, r).(reader := CallClose(r), transfers := [TransferFor(env, q, true)])
  {
    hide StepAt;
    ss, acts := RunToProbeEnd(env, q);
    var s := ss[|acts|];
    ss, acts := Then(env, ss, acts, Reader(Says(false)), s.(reader := CallWait(q)));
    ss, acts := Then(env, ss, acts, Reader(Go), s.(reader := Waiting(q)));
    s := Answered(s, q, []);
    ss, acts := Then(env, ss, acts, Reader(Says(false)), s);
    ss, acts := ReaderSeeks(env, ss, acts, r);
    ss, acts := Then(env, ss, acts, Reader(Go), s.(reader := CallClose(r)));
  }

  lemma RunToDrop(env: Env, q: Query, r: Query) returns (ss: seq<System>, acts: seq<Action>)
    ensures IsSystemRun(env, ss, acts) && ss[|acts|] == AtDrop(env, q, r)
  {
    hide StepAt;
    ss, acts := RunToCallClose(env, q, r);
    var s := ss[|acts|].(reader := Closing(r, 0));
    var x := s.transfers[0].(closePc := CloseConn);
    ss, acts := Then(env, ss, acts, Reader(Go), SetTransfer(s, 0, x));
    x := x.(closePc := CloseCancel, connectionClosed := true);
    ss, acts := Then(env, ss, acts, Reader(Go), SetTransfer(s, 0, x));
    x := x.(closePc := CloseWait, cancelled := true);
    ss, acts := Then(env, ss, acts, Reader(Go), SetTransfer(s, 0, x));
    x := x.(closePc := CloseReturned);
    ss, acts := Then(env, ss, acts, Reader(Go), SetTransfer(s, 0, x));
    ss, acts := Then(env, ss, acts, Reader(Go), AtDrop(env, q, r));
  }

  /** Close dereferences a nil transfer: ReadAt drops it between Close's test of the field and its use. */
  lemma CloseCrashesOnNilTransfer(env: Env, q: Query, r: Query)
    ensures exists ss: seq<System>, acts: seq<Action> ::
              IsSystemRun(env, ss, acts) && ss[|acts|].crashed && ss[|acts|].closer.CallTransferClose?
  {
    hide StepAt;
    var ss, acts := RunToDrop(env, q, r);
    ss, acts := CloserDropsBuffer(env, ss, acts);
    var s := ss[|acts|].(closer := CallTransferClose);
    ss, acts := Then(env, ss, acts, Closer(Go), s);
    s := s.(current := None, reader := Reset(r));
    ss, acts := Then(env, ss, acts, Reader(Go), s);
    ss, acts := Then(env, ss, acts, Closer(Go), Crashed(s));
  }

  // ----- an end marker that comes late -----

  lemma RunToSecondTransfer(env: Env, q: Query, r: Query) returns (ss: seq<System>, acts: seq<Action>)
    ensures IsSystemRun(env, ss, acts)
    ensures ss[|acts|] == AtDrop(env, q, r).(reader := ProbeEnd(r), current := Some(1), owner := Some(1),
                                             window := Fresh(BufferSize(env.size), StartPosition(env.size, r.seek)),
                                             transfers := [ClosedUnbegun(env, q), TransferFor(env, r, true)])
  {
    hide StepAt;
    ss, acts := RunToDrop(env, q, r);
    var s := ss[|acts|].(current := None, reader := Reset(r));
    ss, acts := Then(env, ss, acts, Reader(Go), s);
    s := s.(owner := None, reader := Start(r), window := Fresh(BufferSize(env.size), StartPosition(env.size, r.seek)));
    ss, acts := Then(env, ss, acts, Reader(Go), s);
    s := s.(current := Some(1), owner := Some(1), reader := ProbeEnd(r),
            transfers := [ClosedUnbegun(env, q), TransferFor(env, r, true)]);
    ss, acts := Then(env, ss, acts, Reader(Go), s);
  }

  /** The cancelled `start` of the first transfer comes to its marker. */
  lemma UnbegunComesToMark(env: Env, ss: seq<System>, acts: seq<Action>) returns (ts: seq<System>, bcts: seq<Action>)
    requires IsSystemRun(env, ss, acts) && !ss[|acts|].crashed && ss[|acts|].transfers != []
    requires var x := ss[|acts|].transfers[0];
             x.cancelled && !x.crashed && x.startPc.Begin? && x.hasConnection && x.connectionClosed && x.waiting == 0
    ensures IsSystemRun(env, ts, bcts)
    ensures var s := ss[|acts|];
            var x := s.transfers[0].(startPc := Mark(false), waiting := 1, copyPc := Head, hasConnection := false);
            ts[|bcts|] == SetTransfer(s, 0, x)
  {
    hide StepAt;
    ts, bcts := StarterGoesOn(env, ss, acts, 0);
    ts, bcts := StarterGoesOn(env, ts, bcts, 0);
    ts, bcts := StarterGoesOn(env, ts, bcts, 0);
    ts, bcts := StarterGoesOn(env, ts, bcts, 0);
    ts, bcts := StarterGoesOn(env, ts, bcts, 0);
  }

  /** The end marker of a superseded transfer ends the window of its successor, which has yet to begin: with an
      empty window the end of the file seems to be at the window's base. */
  lemma LateMarkEndsSuccessor(env: Env, q: Query, r: Query)
    ensures exists ss: seq<System>, acts: seq<Action> ::
              IsSystemRun(env, ss, acts) && ss[|acts|].window.ended && ss[|acts|].window.data == []
              && ss[|acts|].owner == Some(1) && |ss[|acts|].transfers| == 2
              && ss[|acts|].transfers[1] == TransferFor(env, r, true)
  {
    hide StepAt;
    var ss, acts := RunToSecondTransfer(env, q, r);
    ss, acts := UnbegunComesToMark(env, ss, acts);
    ss, acts := StarterMarks(env, ss, acts, 0);
  }
}
